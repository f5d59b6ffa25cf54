# Verified models of the wallet's protocol code

Dafny models of the harder parts of the C code this wallet ships: the OpenSSL sources it vendors
(DTLS and TLS handshakes, the DTLS record layer, version 2 writing, time arithmetic, memory
debugging) and the XDAG address codec. `dafny verify dfyconfig.toml` checks the whole project.

Code that updates fields or buffers is modelled by classes and methods on arrays, each proved
against a function of the old state; what the source promises is then proved of those functions for
all inputs and all runs.

| file | models |
|---|---|
| `Fragmentation.dfy` | the handshake header and the loop that cuts a message into fragments, in place |
| `Reassembly.dfy` | the reassembly bitmask, with its table as a parameter |
| `Transcript.dfy` | the DTLS handshake reader and what both sides hash |
| `Arrival.dfy` | which records the reader keeps, and that all of what comes is handed up |
| `StaleQueue.dfy` | when the queue of buffered messages stops, for a handshake or for good |
| `Renegotiation.dfy` | what the queue does to the next handshake of a connection |
| `EndToEnd.dfy` | writer, network and reader together |
| `SatSub.dfy`, `ReplayWindow.dfy` | comparison of record numbers, the replay window, epochs of the reader |
| `RecordNumbers.dfy` | epochs and sequence numbers of the writer, retransmission |
| `RecordCodec.dfy` | sealing and opening of records |
| `Handshake.dfy`, `HandshakeClient.dfy`, `HandshakeServer.dfy` | the handshake loops |
| `ClientFlight.dfy`, `ServerFlight.dfy` | the messages they send and take |
| `MessageReader.dfy` | the restartable reader of TLS handshake messages |
| `Ssl2Write.dfy` | writing in version 2 over a transport that refuses |
| `Calendar.dfy` | Julian day numbers and time offsets |
| `MemCheck.dfy`, `InfoStacks.dfy`, `Ledger.dfy` | the two-lock protocol of memory checking, its reference-counted stacks, and its list of blocks |
| `Address.dfy` | XDAG addresses |
| `Bits.dfy`, `Fields.dfy`, `Options.dfy` | bytes, bit operations, big-endian fields, options |

## What turned out differently

- The first entry of the end-mask table of the reassembly bitmask makes messages whose length is a
  multiple of eight pass as complete without their last eight bytes; the exact set of lengths is
  proved, and that a repaired entry makes the test right.
- A fragmented write that a failed flush interrupts starts again with fragment offset 0 and hashes a
  second header; both are right exactly when nothing had been sent before.
- The client's handshake need not end when every handler succeeds: a HelloVerifyRequest after a
  ServerHello sends it back to its hello without limit. The number of turns is bounded by the number of
  such messages.
- The comment at mem_dbg.c:199 says that MALLOC2 is held exactly while the counter is positive; the code
  takes the lock before it counts. The model follows the code and says exactly when the lock is held.
- The condition for a version 2 header to be read as written is on the padded length: padding alone can
  carry a record of at most 16383 bytes of MAC and data to 16384.
- A message retransmitted after two changes of the write cipher goes out under the old epoch with the
  current counter; exactly when that reuses a number is proved. Until the cipher changes once more counters tell;
  after that none does.
- CRYPTO_mem_leaks frees the table of blocks without their records: a node that the block of the BIO names keeps
  a reference that nothing accounts for.
- CRYPTO_push_info_ returns 0 on success.
- Nothing clears change_cipher_spec_ok between handshakes: d1_srvr.c:523 and 535 set it, and an ordinary full
  handshake without a client certificate leaves it set. The next handshake of the same connection can then take
  the ChangeCipherSpec of the client before the server has sent its own, so that a resumed handshake ends in
  the wrong order. The order holds over every run exactly when that flag and change_cipher_spec are clear at
  the start; a full handshake needs only the second to be.
- When the handler of a HelloVerifyRequest that came in place of the ServerHello fails and the application calls
  again, the client reads on as if a ServerHello had come, and can arrive without one.
- A queue entry that the reader has gone past stays at the head of the queue and blocks it. A part of a message
  followed by the whole of it, as a retransmission may cut it, is enough. What a blocked queue is, and that in
  the same handshake nothing but a wrap of the 16-bit message number unblocks it, is proved in both directions.
- The end of a handshake sets the awaited number back to 0 (d1_srvr.c:642, d1_clnt.c:555) and keeps the queue,
  which is emptied only when the connection is freed. A blocked queue then moves again, unless its head is a
  first message that can never be complete; and what was left in it is taken for messages of the next
  handshake. The next handshake is read faithfully exactly when the queue is empty as it starts.
- A fragment may give another message length than the first one of its message; nothing compares the two. The
  copy stays inside the buffer exactly as `Transcript.InBoundsIff` says.
- OPENSSL_gmtime_adj overflows for large offsets where long has 32 bits, which it has on armeabi-v7a, the only
  target of the app: it can return 1 with a date that no calendar has. Exactly which additions fit is proved.
- A negative answer to the MTU query is stored as a large unsigned MTU and kept.
- The priorities of the sent-message queue are cut to sixteen bits, so that they keep the order of sending only
  for message numbers below 2^15.
- CRYPTO_dbg_realloc on a block before any block was recorded hands a null table to the hash functions.

## Model

| member | source | states |
|---|---|---|
| Fragmentation.HeaderRoundTrip | xdagwallet/app/src/main/cpp/openssl/ssl/d1_both.c:1401-1411 | parsing a printed handshake header gives the header back exactly when every number fits its field, and always gives numbers that fit |
| Fragmentation.HeaderReprint | xdagwallet/app/src/main/cpp/openssl/ssl/d1_both.c:1364-1376 | printing a parsed header gives the same twelve bytes |
| Fragmentation.HeaderLayout | xdagwallet/app/src/main/cpp/openssl/ssl/d1_both.c:1364-1376 | byte 0 is the type, bytes 1 to 3 the length of the message, 4 and 5 its number, 6 to 8 the offset of the fragment and 9 to 11 its length, the high byte first |
| Fragmentation.PayloadLen | xdagwallet/app/src/main/cpp/openssl/ssl/d1_both.c:303-324 | a fragment fills the link, or takes all that is left, or leaves twelve bytes for a last one; it is empty only for an empty body |
| Fragmentation.CutsTile | xdagwallet/app/src/main/cpp/openssl/ssl/d1_both.c:288-400 | for every message and every sequence of usable links the fragments follow one another without gap or overlap to the end of the body, none empty unless the body is |
| Fragmentation.TilesCarryTheBody | xdagwallet/app/src/main/cpp/openssl/ssl/d1_both.c:288-400 | fragments that tile a body carry, end to end, exactly the body |
| Fragmentation.WritesFitTheLink | xdagwallet/app/src/main/cpp/openssl/ssl/d1_both.c:288-320 | no write is longer than the larger of the MTU computed for its turn and 24 bytes, also where the computation wraps around; FlushIff and DatagramFits say it in bytes |
| Fragmentation.FlushIff | xdagwallet/app/src/main/cpp/openssl/ssl/d1_both.c:288-301 | where nothing wraps, a turn flushes exactly when what is pending, the record header of 13 bytes, what MAC and blocks add, and the handshake header of 12 bytes do not leave room for a byte of the MTU; the room is the MTU less the first three, or without what was pending after a flush |
| Fragmentation.DatagramFits | xdagwallet/app/src/main/cpp/openssl/ssl/d1_both.c:288-320 | where nothing wraps, what is pending and not flushed, both headers, MAC, blocks and data are within the MTU in every turn, but for a last fragment of at most twelve bytes; and they fill it, but for a last fragment and one that leaves twelve bytes |
| Fragmentation.HandshakeWriter.PrepareFragment | xdagwallet/app/src/main/cpp/openssl/ssl/d1_both.c:293-325 | the window moves back over the last bytes sent, the new header is written there, and the unsent body behind it is intact |
| Fragmentation.HandshakeWriter.HashFragment | xdagwallet/app/src/main/cpp/openssl/ssl/d1_both.c:355-382 | the first fragment adds the header of the whole message and its bytes to the Finished hash, a later one only its bytes |
| Fragmentation.HandshakeWriter.FinishTurn | xdagwallet/app/src/main/cpp/openssl/ssl/d1_both.c:384-400 | the window moves on by what was sent; at the end both counters are zero |
| Fragmentation.HandshakeWriter.WriteFragment | xdagwallet/app/src/main/cpp/openssl/ssl/d1_both.c:288-400 | one turn sends the next bytes of the unsent body under its header, and leaves the rest of the body in the buffer although headers overwrite what was sent |
| Fragmentation.HandshakeWriter.DoWrite | xdagwallet/app/src/main/cpp/openssl/ssl/d1_both.c:284-402 | one call sends the fragments of the tiling one after another, hashes what they carry once, and returns 1 when all are sent, or what a failed flush returned, with the rest still in the buffer; the unsent count falls in every turn |
| Fragmentation.WholeMessageSent | xdagwallet/app/src/main/cpp/openssl/ssl/d1_both.c:355-400 | a call that starts at the head and ends well has sent the whole body in order, and has hashed the message as one fragment |
| Fragmentation.ResumedWriteHash | xdagwallet/app/src/main/cpp/openssl/ssl/d1_both.c:355-382 | a message that a failed flush split over two calls is hashed as one fragment exactly when the first call had sent nothing |
| Fragmentation.ResumedWriteOffsets | xdagwallet/app/src/main/cpp/openssl/ssl/d1_both.c:285-325 | the second call of such a message writes right fragment offsets exactly when it starts at the head of the message |
| Fragmentation.QueriedMtuIsUsable | xdagwallet/app/src/main/cpp/openssl/ssl/d1_both.c:231-301 | with any digest and block size there is, a queried MTU, replaced when too small and kept in an unsigned int, leaves room for a header and data exactly when the answer was not negative, or within the overhead of the least int |
| Fragmentation.SelectedMtu | xdagwallet/app/src/main/cpp/openssl/ssl/d1_both.c:231-245 | an answer below 228 is replaced by 1472, a larger one kept, and a negative one kept as an unsigned number |
| Reassembly.MarkInPlace | xdagwallet/app/src/main/cpp/openssl/ssl/d1_both.c:128-137 | the marking macro, in place on the bitmask |
| Reassembly.CheckComplete | xdagwallet/app/src/main/cpp/openssl/ssl/d1_both.c:139-146 | the completeness macro answers the test it is meant to answer |
| Reassembly.MarkMarks | xdagwallet/app/src/main/cpp/openssl/ssl/d1_both.c:128-137 | marking a fragment sets exactly the bits of the bytes it records: all of its bytes, but for the last eight of a fragment longer than eight that ends on a multiple of eight |
| Reassembly.MarkedWasReceived | xdagwallet/app/src/main/cpp/openssl/ssl/d1_both.c:597-690 | over any sequence of overlapping fragments a set bit means that the byte was received |
| Reassembly.CompleteIffAllRecorded | xdagwallet/app/src/main/cpp/openssl/ssl/d1_both.c:139-156 | off byte boundaries, and always with the repaired table, the test passes exactly when every byte is recorded |
| Reassembly.CompleteAtByteBoundary | xdagwallet/app/src/main/cpp/openssl/ssl/d1_both.c:139-156 | for lengths that are a multiple of eight the test of the code passes exactly when all bytes but the last eight are recorded, and those not |
| Reassembly.SoundExactlyOffBoundaries | xdagwallet/app/src/main/cpp/openssl/ssl/d1_both.c:155-156 | with the table of the code the test is sound for a length exactly when it is not a multiple of eight, or is eight; with a repaired first entry it is sound for all |
| Reassembly.CoverageCompletes | xdagwallet/app/src/main/cpp/openssl/ssl/d1_both.c:597-690 | full coverage passes the test when no fragment longer than eight bytes ends on a multiple of eight |
| Transcript.InsertSorted | xdagwallet/app/src/main/cpp/openssl/ssl/d1_both.c:701-783 | inserting into the queue of messages keeps it sorted by distinct numbers |
| Transcript.InBoundsIff | xdagwallet/app/src/main/cpp/openssl/ssl/d1_both.c:651-660 | copying, marking and testing a fragment stay inside the buffers of its entry exactly when its bytes lie in the message of the entry and the length it gives itself needs no longer bitmask |
| Transcript.HandshakeReader.ReassembleFragment | xdagwallet/app/src/main/cpp/openssl/ssl/d1_both.c:597-697 | a fragment is copied into the queued message and marked, and the bitmask is dropped when the message is complete, by the length this fragment gives; overlong fragments fail, and one that would touch memory outside the buffers is an overrun |
| Transcript.HandshakeReader.ProcessOutOfSeqMessage | xdagwallet/app/src/main/cpp/openssl/ssl/d1_both.c:700-783 | old, far ahead and repeated messages are dropped, fragments go to reassembly, whole messages are queued; which ones, Arrival.PutByIff and Arrival.AllArrive say |
| Transcript.HandshakeReader.RetrieveBufferedFragment | xdagwallet/app/src/main/cpp/openssl/ssl/d1_both.c:541-594 | the head of the queue leaves it when it is the awaited message and complete, and is handed up if it passes the size checks; in every other case nothing changes, also when the head is older than the awaited message |
| Transcript.HandshakeReader.ProcessRecord | xdagwallet/app/src/main/cpp/openssl/ssl/d1_both.c:785-895 | what one record does to the reader, by its sequence number, its fragment and its type |
| Transcript.HandshakeReader.GetMessage | xdagwallet/app/src/main/cpp/openssl/ssl/d1_both.c:410-489 | records are processed until a message is there, buffered messages first |
| Transcript.HandshakeReader.NextHandshake | xdagwallet/app/src/main/cpp/openssl/ssl/d1_srvr.c:638-646 | when a handshake is over the numbers and the hash begin again, and the queue of buffered messages is kept |
| Transcript.WriterIsHonest | xdagwallet/app/src/main/cpp/openssl/ssl/d1_both.c:224-402 | every fragment the writer sends of a message that is not cut, or does not end on a byte boundary of the bitmask, is one the reader can trust |
| Transcript.AddFragmentKeeps | xdagwallet/app/src/main/cpp/openssl/ssl/d1_both.c:597-690 | a fragment that completes a message completes it with the bytes of the sender |
| Transcript.ReassembleKeeps | xdagwallet/app/src/main/cpp/openssl/ssl/d1_both.c:597-697 | reassembly keeps the queue right: complete entries hold what was sent |
| Transcript.ProcessKeeps | xdagwallet/app/src/main/cpp/openssl/ssl/d1_both.c:785-895 | any record that carries a fragment of a message keeps the reader in agreement with the sender and inside its buffers |
| Transcript.GetMessageKeeps | xdagwallet/app/src/main/cpp/openssl/ssl/d1_both.c:410-489 | so does every call, over any records |
| Transcript.TranscriptAgreement | xdagwallet/app/src/main/cpp/openssl/ssl/d1_both.c:435-467 | over any number of handshakes between which the queue is empty, and any calls and any loss, order, repetition and re-cutting of honest fragments, the reader has handed up and hashed each message below the awaited number once, in order, as if sent in one fragment: a prefix of what the sender of the handshake hashes |
| Transcript.SenderHashes | xdagwallet/app/src/main/cpp/openssl/ssl/d1_both.c:355-382 | the sender that writes its messages from the head hashes the same transcript |
| Transcript.AgreementFailsOnByteBoundaries | xdagwallet/app/src/main/cpp/openssl/ssl/d1_both.c:155-156 | for every length of at least 16 that is a multiple of eight, fragments that leave out the last eight bytes make the reader hand up whatever memory held in their place |
| Arrival.PutByIff | xdagwallet/app/src/main/cpp/openssl/ssl/d1_both.c:700-783 | in every state a record out of turn that is no part of a message is put by, complete and with its body, exactly when its number is one of the ten after the awaited one, no entry has it, its bytes lie in its message, and it is not a Finished while the first message is awaited; otherwise nothing changes |
| Arrival.UnexpectedIsDropped | xdagwallet/app/src/main/cpp/openssl/ssl/d1_both.c:724-741 | neither a message nor a part of one changes anything where its number is not one of the next ten, or where it is such a Finished |
| Arrival.HelloRequests | xdagwallet/app/src/main/cpp/openssl/ssl/d1_both.c:830-855 | a call of a client passes over an awaited HelloRequest that is empty as if it had not come, and fails at any other without a change |
| Arrival.HandedUpIff | xdagwallet/app/src/main/cpp/openssl/ssl/d1_both.c:857-892 | any other awaited record that is no part is handed up and hashed, as one message with its bytes where its offset says, exactly when they lie in the message and within the limit; otherwise nothing changes |
| Arrival.HeadLeavesIff | xdagwallet/app/src/main/cpp/openssl/ssl/d1_both.c:541-594 | a queued message leaves the queue exactly when it is at the head, complete and awaited; it is handed up exactly when it is within the limit |
| Arrival.PartRefusedIff | xdagwallet/app/src/main/cpp/openssl/ssl/d1_both.c:597-697 | an awaited or expected part is refused exactly when its bytes lie outside its message or past the longest message allowed, and nothing changes then; otherwise its number has an entry, and no other number gains or loses one |
| Arrival.AllArrive | xdagwallet/app/src/main/cpp/openssl/ssl/d1_both.c:410-895 | the converse of agreement: from an empty queue, when every fragment of the messages from the awaited one up to one of the next ten comes at least once, in any order and among any others, a caller that asks until there is no more is handed up all of them, whole and in order, and they are hashed; each message comes whole, or in parts that record a length off the byte boundaries, and no Finished comes before the first message |
| Arrival.TilingPassesIff | xdagwallet/app/src/main/cpp/openssl/ssl/d1_both.c:128-146 | the fragments of one way to cut a message meet that condition exactly when there is but one, or when neither the message nor any fragment longer than eight bytes ends on a multiple of eight |
| StaleQueue.SessionFormed | xdagwallet/app/src/main/cpp/openssl/ssl/d1_both.c:541-783 | over every session and any number of handshakes, whatever the records hold, the queue is sorted by distinct numbers, bitmasks are as long as their messages need, and no bit past the end of a message is set |
| StaleQueue.BecomesStaleIff | xdagwallet/app/src/main/cpp/openssl/ssl/d1_both.c:785-895 | a record leaves an entry at the head of the queue that the reader has gone past exactly when it brings the awaited message in one piece while an entry for it is at the head |
| StaleQueue.ProcessStaysBlocked | xdagwallet/app/src/main/cpp/openssl/ssl/d1_both.c:597-895 | no record unblocks a queue whose head was gone past, or is awaited with the top bit of every octet of its bitmask set, not even a record that gives another length |
| StaleQueue.CallStaysBlocked | xdagwallet/app/src/main/cpp/openssl/ssl/d1_both.c:410-489 | a call on a blocked queue hands up nothing but a message that comes in one piece, and leaves the queue blocked |
| StaleQueue.BlockedIff | xdagwallet/app/src/main/cpp/openssl/ssl/d1_both.c:541-594 | for every queue there can be: it is blocked exactly when nothing that comes makes the reader take from it again in the handshake that is going on, before the 16-bit number wraps around |
| StaleQueue.NewHandshakeBlocksIff | xdagwallet/app/src/main/cpp/openssl/ssl/d1_srvr.c:638-646 | the queue is blocked at the start of the next handshake exactly when its head is a first message with the top bit of every octet of its bitmask set |
| StaleQueue.DeadIff | xdagwallet/app/src/main/cpp/openssl/ssl/d1_both.c:541-594 | for every queue there can be: its head is such an entry exactly when nothing makes the reader take from it again, over all handshakes to come and any number of messages |
| StaleQueue.ResentWholeBlocks | xdagwallet/app/src/main/cpp/openssl/ssl/d1_both.c:541-895 | a part of a message followed by the whole of it, sent again, hands the message up and blocks the queue |
| Renegotiation.NewHandshakeIff | xdagwallet/app/src/main/cpp/openssl/ssl/d1_srvr.c:638-646 | from every state in agreement with the handshake so far: the next one is read faithfully and inside the buffers, whatever its messages are and whatever honest records come, exactly when nothing is queued as it starts |
| Renegotiation.EndsEmptyIff | xdagwallet/app/src/main/cpp/openssl/ssl/d1_both.c:541-594 | when all messages of a handshake were handed up, nothing is queued exactly when the head of the queue is not stale |
| Renegotiation.HandshakesMix | xdagwallet/app/src/main/cpp/openssl/ssl/d1_both.c:597-690 | a part and then the whole of a first message, a new handshake, and the other part of its first message, of the same type and length: the reader hands up the first bytes of the one and the last bytes of the other as one message |
| EndToEnd.SenderHash | xdagwallet/app/src/main/cpp/openssl/ssl/d1_both.c:355-382 | over a run of finished calls, first sends and retransmissions, the hash of the sender is that of the messages sent so far, each as one fragment and once |
| EndToEnd.SentIsHonest | xdagwallet/app/src/main/cpp/openssl/ssl/d1_both.c:224-402 | every record such a run has sent is a fragment the reader can trust, if each call sent its message in one piece or the message has a length for which the completeness test is sound |
| EndToEnd.HashesAgree | xdagwallet/app/src/main/cpp/openssl/ssl/d1_both.c:355-467 | over any number of handshakes between which the queue is empty: whatever the network does with the records of first sends and retransmissions, each cut anew, and however the calls of the reader fall, the messages handed up are the first ones sent, unchanged and in order; the hash of the reader is a prefix of the hash of the sender, and equal once all messages are there |
| SatSub.SubtractBytes | xdagwallet/app/src/main/cpp/openssl/ssl/d1_pkt.c:146-163 | the loop carries borrow and saturation from the last byte to the first |
| SatSub.SatSub64be | xdagwallet/app/src/main/cpp/openssl/ssl/d1_pkt.c:126-167 | the portable path returns the saturated difference of the two 8-byte numbers |
| SatSub.CarriedEnd | xdagwallet/app/src/main/cpp/openssl/ssl/d1_pkt.c:146-167 | borrow and saturation after the first byte say the difference, exact within 128 and clamped outside, except within 128 of 2^64 |
| SatSub.ExactBelow48Bits | xdagwallet/app/src/main/cpp/openssl/ssl/d1_pkt.c:126-167 | for all values below 2^48 the result is the difference clamped to [-128, 128] |
| SatSub.SignIsRight | xdagwallet/app/src/main/cpp/openssl/ssl/d1_pkt.c:126-167 | for all 64-bit values the sign is that of the difference, and a result inside (-128, 128) is exact |
| ReplayWindow.Bitmap.ReplayCheck | xdagwallet/app/src/main/cpp/openssl/ssl/d1_pkt.c:1575-1595 | the check on the bitmap answers what the window as numbers answers, and copies the number into the record exactly when it passes |
| ReplayWindow.Bitmap.Update | xdagwallet/app/src/main/cpp/openssl/ssl/d1_pkt.c:1598-1619 | the update of the bitmap, bit by bit in a word of 32 or 64 bits |
| ReplayWindow.PassesIffAcceptable | xdagwallet/app/src/main/cpp/openssl/ssl/d1_pkt.c:1575-1596 | a number passes exactly when it is above all accepted ones, or within the window and not accepted yet |
| ReplayWindow.UpdateKeeps | xdagwallet/app/src/main/cpp/openssl/ssl/d1_pkt.c:1598-1619 | after an update bit k of the map is again set exactly when the number k below the highest was accepted |
| ReplayWindow.RecordReader.GetRecord | xdagwallet/app/src/main/cpp/openssl/ssl/d1_pkt.c:654-700 | the epoch chooses the window; empty, replayed and forged records leave every window as it was |
| ReplayWindow.RecordReader.ResetSeqNumbers | xdagwallet/app/src/main/cpp/openssl/ssl/d1_pkt.c:1774-1795 | a change of the read cipher moves to the next epoch, its window and an empty one after it |
| ReplayWindow.RunKeepsInv | xdagwallet/app/src/main/cpp/openssl/ssl/d1_pkt.c:1575-1619 | over every run of arrivals and cipher changes the window stands for the set of numbers accepted in the epoch, and no number is accepted twice in an epoch |
| ReplayWindow.NextRecord | xdagwallet/app/src/main/cpp/openssl/ssl/d1_pkt.c:464-508 | at every reachable state a record is accepted exactly when it is of the current epoch, not empty, genuine, and acceptable to the set; a refused one changes nothing |
| RecordNumbers.SequenceUpdate | xdagwallet/app/src/main/cpp/openssl/ssl/s3_enc.c:757-766 | the carry loop adds one to the 64-bit number, modulo 2^64 |
| RecordNumbers.RecordWriter.WriteRecord | xdagwallet/app/src/main/cpp/openssl/ssl/d1_pkt.c:1524-1547 | a record goes out under the current epoch and the low 48 bits of the counter, which goes up by one |
| RecordNumbers.RecordWriter.ResetSeqNumbers | xdagwallet/app/src/main/cpp/openssl/ssl/d1_pkt.c:1774-1795 | a change of the write cipher saves the counter, starts a new one and counts the epoch up in 16 bits |
| RecordNumbers.RecordWriter.RetransmitMessage | xdagwallet/app/src/main/cpp/openssl/ssl/d1_both.c:1214-1304 | a message of the last epoch goes out under that epoch and its saved counter, which goes on; epoch and counter are restored |
| RecordNumbers.PrioritiesKeepSendingOrder | xdagwallet/app/src/main/cpp/openssl/ssl/d1_both.c:1111-1123 | cut to sixteen bits, the priorities of the sent-message queue differ and keep the order of sending, the ChangeCipherSpec of a number before its message, exactly when the numbers stay below 2^15 |
| RecordNumbers.RunCounts | xdagwallet/app/src/main/cpp/openssl/ssl/d1_both.c:1214-1304 | over every disciplined run buffered messages are of the current epoch or the one before, the counter is the number of records of the epoch, and the saved counter is the next unused number of the epoch before |
| RecordNumbers.NumbersNeverReused | xdagwallet/app/src/main/cpp/openssl/ssl/d1_pkt.c:1524-1547 | over every run with fewer than 2^48 records an epoch, fewer than 2^16 epochs, and the buffer cleared between cipher changes, all pairs of epoch and number on the wire differ |
| RecordNumbers.DistinctIff | xdagwallet/app/src/main/cpp/openssl/ssl/d1_both.c:1214-1304 | over every run whose numbers stay in their fields, whatever was cleared or resent: some pair goes out twice exactly when at some step a message older than the last epoch is resent over numbers its epoch has used |
| RecordNumbers.CalmRunCounts | xdagwallet/app/src/main/cpp/openssl/ssl/d1_both.c:1214-1304 | until such a message is resent the counters count the records of their epochs, even when the buffer was not cleared in time |
| RecordNumbers.FirstOldResendCollidesIff | xdagwallet/app/src/main/cpp/openssl/ssl/d1_both.c:1214-1304 | the first message older than the last epoch to be resent collides exactly when the current counter is below the count of its epoch |
| RecordNumbers.OldResendCollidesIff | xdagwallet/app/src/main/cpp/openssl/ssl/d1_both.c:1214-1304 | so does every later one until the cipher changes again, with the count its epoch had before the first |
| RecordNumbers.CountersDoNotTell | xdagwallet/app/src/main/cpp/openssl/ssl/d1_both.c:1214-1304 | after that no counter tells: two runs have the same counters, counts and highest numbers in every epoch, and the same message resent is a new number in one and collides in the other |
| RecordNumbers.RetransmitReusesIff | xdagwallet/app/src/main/cpp/openssl/ssl/d1_both.c:1214-1304 | in any state that counts its records, one record of a retransmitted message reuses a pair exactly when the message is more than one epoch old and the current counter is below the count of that epoch |
| RecordNumbers.UndisciplinedRunReuses | xdagwallet/app/src/main/cpp/openssl/ssl/d1_both.c:1214-1304 | a run that does not clear the buffer in time sends the same pair twice |
| RecordCodec.PadRecord | xdagwallet/app/src/main/cpp/openssl/ssl/d1_enc.c:194-211 | the padding loop makes the record up to whole blocks with bytes of its length less one |
| RecordCodec.CheckPadding | xdagwallet/app/src/main/cpp/openssl/ssl/d1_enc.c:254-283 | the padding check accepts exactly paddings that fit and whose bytes are all their length less one |
| RecordCodec.HeaderLayout | xdagwallet/app/src/main/cpp/openssl/ssl/d1_pkt.c:1444-1527 | byte 0 is the type, then two bytes of version, two of epoch, six of number and two of length, the high byte first |
| RecordCodec.Decrypt | xdagwallet/app/src/main/cpp/openssl/ssl/d1_enc.c:229-291 | where data and MAC are after decryption in place; a padding that reaches into the IV wraps the length, which the next check refuses |
| RecordCodec.WriteRecord | xdagwallet/app/src/main/cpp/openssl/ssl/d1_pkt.c:1444-1538 | the record is built in place: header, IV, data, MAC, padding, encrypted; it fits the buffer |
| RecordCodec.ReadRecord | xdagwallet/app/src/main/cpp/openssl/ssl/d1_pkt.c:409-679 | a received record is checked, passed over when its header announces no bytes, decrypted in place and compared with its MAC |
| RecordCodec.VerifyIff | xdagwallet/app/src/main/cpp/openssl/ssl/d1_pkt.c:429-494 | the MAC check passes exactly for data followed by its MAC and within the size limits |
| RecordCodec.OpensIff | xdagwallet/app/src/main/cpp/openssl/ssl/d1_pkt.c:409-679 | opening yields a record exactly when the datagram starts with that record sealed: its header with a length that is not 0, its MAC, any first block and any good padding, and nothing else |
| RecordCodec.OpensOneWay | xdagwallet/app/src/main/cpp/openssl/ssl/d1_pkt.c:409-494 | no datagram opens as two records |
| RecordCodec.OpenSeal | xdagwallet/app/src/main/cpp/openssl/ssl/d1_pkt.c:1444-1538 | opening a sealed record recovers type, version, epoch, number and data, whatever follows it and whatever the IV block decrypts to |
| Calendar.JulianToDate | xdagwallet/app/src/main/cpp/openssl/crypto/o_time.c:303-317 | the statements that reuse L give, on 32-bit integers that wrap, the date of the nested divisions |
| Calendar.DateRoundTrip | xdagwallet/app/src/main/cpp/openssl/crypto/o_time.c:295-317 | converting a date and back gives the date, for every Gregorian date from the year -4799 on |
| Calendar.JulianRoundTrip | xdagwallet/app/src/main/cpp/openssl/crypto/o_time.c:295-317 | converting any day number from 0 on and back gives the number, by way of a valid date |
| Calendar.NextDayIsNextNumber | xdagwallet/app/src/main/cpp/openssl/crypto/o_time.c:295-301 | the next day of the calendar has the next number |
| Calendar.Anchor | xdagwallet/app/src/main/cpp/openssl/crypto/o_time.c:295-301 | 1 January 2000 is day 2451545, and the range of years is days 2415021 to 5373484 |
| Calendar.YearInRange | xdagwallet/app/src/main/cpp/openssl/crypto/o_time.c:268-276 | a date is in the years 1900 to 9999 exactly when its number is in that range of days |
| Calendar.AdjustIsExact | xdagwallet/app/src/main/cpp/openssl/crypto/o_time.c:232-290 | on unbounded integers the result is 1 exactly when the instant lies in the years 1900 to 9999, and then the time is well formed and its count of seconds is the old one plus days and seconds; otherwise nothing changes |
| Calendar.EveryStepFitsIff | xdagwallet/app/src/main/cpp/openssl/crypto/o_time.c:232-317 | for a valid time after the year -4800 no intermediate of the addition leaves 32 bits exactly when the first product of the conversion from the date does not, nor the sums of days, nor the product by four of the day they lead to |
| Calendar.MachineAdjustIs | xdagwallet/app/src/main/cpp/openssl/crypto/o_time.c:232-317 | where no intermediate leaves 32 bits the machine computes what the integers do |
| Calendar.MachineAdjustIsExact | xdagwallet/app/src/main/cpp/openssl/crypto/o_time.c:232-290 | under that condition, which can be checked before the call, the machine returns 1 exactly when the instant lies in the years 1900 to 9999, and then with the right time |
| Calendar.MachineAdjustGoesWrong | xdagwallet/app/src/main/cpp/openssl/crypto/o_time.c:303-317 | 1073705300 days after 1 January 2000 the machine returns 1 with day 1073741825 of January 1900 |
| Calendar.WrongDoesNotFit | xdagwallet/app/src/main/cpp/openssl/crypto/o_time.c:303-317 | that time is valid, and the offset is not among those that fit |
| Calendar.I32Wraps | xdagwallet/app/src/main/cpp/openssl/crypto/o_time.c:303-317 | a machine integer is the same for all integers that differ by a multiple of 2^32 |
| Calendar.Tm.SplitOffset | xdagwallet/app/src/main/cpp/openssl/crypto/o_time.c:238-255 | the statements that split days and seconds compute, on the machine, the split with its one carry or borrow |
| Calendar.Tm.MoveDate | xdagwallet/app/src/main/cpp/openssl/crypto/o_time.c:256-282 | the date moves to the day number computed on the machine, or stays when that is negative or leads out of the years 1900 to 9999 |
| Calendar.Tm.Adjust | xdagwallet/app/src/main/cpp/openssl/crypto/o_time.c:232-290 | the method on the fields computes, for every valid time and all machine offsets, what MachineAdjustIsExact and MachineAdjustGoesWrong are about |
| Calendar.DateToJulianIn32 | xdagwallet/app/src/main/cpp/openssl/crypto/o_time.c:295-301 | no intermediate of the conversion from a date leaves 32 bits for the years 1900 to 9999 |
| Calendar.JulianFitsIff | xdagwallet/app/src/main/cpp/openssl/crypto/o_time.c:295-301 | for a valid date after the year -4800 none does exactly when the first product does not |
| Calendar.JulianToDateIn32 | xdagwallet/app/src/main/cpp/openssl/crypto/o_time.c:303-317 | none of the conversion to a date from 0 on does exactly when the product by four does not, which covers every day up to 9999-12-31 |
| MemCheck.StepInv | xdagwallet/app/src/main/cpp/openssl/crypto/mem_dbg.c:216-302 | every step from one lock operation to the next of any thread keeps the invariant of locks, counter and owner, also between the two unlocks that end a call |
| MemCheck.EveryInterleaving | xdagwallet/app/src/main/cpp/openssl/crypto/mem_dbg.c:216-302 | the invariant holds after every interleaving of any number of threads with balanced calls |
| MemCheck.DisabledForOneThread | xdagwallet/app/src/main/cpp/openssl/crypto/mem_dbg.c:193-202 | the counter is the nesting depth of the disabling thread, which then holds MALLOC2 with ENABLE clear; checking is off for exactly that thread |
| MemCheck.Malloc2HeldIff | xdagwallet/app/src/main/cpp/openssl/crypto/mem_dbg.c:199-202 | MALLOC2 is held exactly when the counter is positive or a thread is between taking it and counting up |
| MemCheck.WaiterForMalloc2HoldsNothing | xdagwallet/app/src/main/cpp/openssl/crypto/mem_dbg.c:246-255 | a thread that waits for MALLOC2 holds neither lock |
| MemCheck.NoCycle | xdagwallet/app/src/main/cpp/openssl/crypto/mem_dbg.c:216-302 | the wait-for graph has no cycle and no chain of more than three threads |
| MemCheck.SomeoneCanGoOn | xdagwallet/app/src/main/cpp/openssl/crypto/mem_dbg.c:216-302 | whenever a thread is inside a call some thread can go on, or the thread that disabled checking can enable it |
| InfoStacks.Tracker.Push | xdagwallet/app/src/main/cpp/openssl/crypto/mem_dbg.c:397-446 | the new node tops the stack of its thread; the result is 0 although nothing failed |
| InfoStacks.Tracker.PopInfo | xdagwallet/app/src/main/cpp/openssl/crypto/mem_dbg.c:359-395 | the top goes or stays for the blocks that name it, the next node becomes the top, and the counts settle |
| InfoStacks.Tracker.RemoveAll | xdagwallet/app/src/main/cpp/openssl/crypto/mem_dbg.c:463-477 | the loop ends, returns the height of the stack and leaves it empty |
| InfoStacks.Tracker.DbgMalloc | xdagwallet/app/src/main/cpp/openssl/crypto/mem_dbg.c:481-566 | the block names the top of its thread; a block recorded at the address already lets go of its node |
| InfoStacks.Tracker.AppInfoFree | xdagwallet/app/src/main/cpp/openssl/crypto/mem_dbg.c:204-214 | the recursion ends and releases exactly the nodes whose last reference goes, although each is freed only after those below |
| InfoStacks.Tracker.DbgFree | xdagwallet/app/src/main/cpp/openssl/crypto/mem_dbg.c:569-603 | the record goes and with it its reference; that it goes, and no other, Ledger.LedgerIsKept says |
| InfoStacks.Tracker.DbgRealloc | xdagwallet/app/src/main/cpp/openssl/crypto/mem_dbg.c:605-654 | the record moves to the new address; counts stay exact exactly when no record that names a node is displaced; it fails, at the null table, exactly when two addresses are given and no block was ever recorded |
| InfoStacks.Tracker.MemLeaks | xdagwallet/app/src/main/cpp/openssl/crypto/mem_dbg.c:756-825 | the table goes when no block is recorded but that of the BIO; counts stay exact exactly when that block, recorded alone, names no node |
| InfoStacks.LeaksKeepsIff | xdagwallet/app/src/main/cpp/openssl/crypto/mem_dbg.c:756-825 | a report of leaks keeps the counts exact exactly when it does not clear the table of a block that names a node; it changes no stack |
| InfoStacks.TableIff | xdagwallet/app/src/main/cpp/openssl/crypto/mem_dbg.c:505-513 | over every run the table is there exactly when some block was recorded, and no report of leaks has cleared it since |
| InfoStacks.FreshIsSound | xdagwallet/app/src/main/cpp/openssl/crypto/mem_dbg.c:121-165 | with nothing pushed or recorded the counts are exact |
| InfoStacks.PushKeeps | xdagwallet/app/src/main/cpp/openssl/crypto/mem_dbg.c:397-446 | a push keeps the counts exact and puts the information on the stack of its thread, and on no other |
| InfoStacks.PopKeeps | xdagwallet/app/src/main/cpp/openssl/crypto/mem_dbg.c:359-395 | a pop keeps the counts exact and takes one off the stack of its thread, and off no other |
| InfoStacks.RemoveAllKeeps | xdagwallet/app/src/main/cpp/openssl/crypto/mem_dbg.c:463-477 | so does removing all, for a whole stack |
| InfoStacks.MallocKeeps | xdagwallet/app/src/main/cpp/openssl/crypto/mem_dbg.c:542-559 | recording a block keeps the counts exact and the stacks as they are |
| InfoStacks.MallocLeaksIff | xdagwallet/app/src/main/cpp/openssl/crypto/mem_dbg.c:551-559 | it strands a node exactly when the address was recorded already and the node there had that one reference, and is not the one named now |
| InfoStacks.ReleasedKeeps | xdagwallet/app/src/main/cpp/openssl/crypto/mem_dbg.c:204-214 | releasing one reference keeps the counts exact, and no pointer to a released node remains |
| InfoStacks.FreeKeeps | xdagwallet/app/src/main/cpp/openssl/crypto/mem_dbg.c:569-603 | forgetting a block keeps the counts exact and the stacks as they are |
| InfoStacks.ReallocKeepsIff | xdagwallet/app/src/main/cpp/openssl/crypto/mem_dbg.c:605-654 | moving a record keeps the counts exact exactly when it displaces no record that names a node |
| InfoStacks.LiveIffReachable | xdagwallet/app/src/main/cpp/openssl/crypto/mem_dbg.c:204-214 | a node is allocated exactly when it is reachable from a stack or a recorded block |
| InfoStacks.RunKeeps | xdagwallet/app/src/main/cpp/openssl/crypto/mem_dbg.c:359-654 | over every run whose addresses are fresh all counts are exact, stacks are what their threads pushed and popped, and allocated means reachable |
| Ledger.LedgerIsKept | xdagwallet/app/src/main/cpp/openssl/crypto/mem_dbg.c:481-654 | over every run whose addresses are fresh the blocks recorded are those of a ledger kept from the calls alone: recording enters the address, freeing takes it out, reallocation moves it, a report of leaks clears it when only the block of the BIO is in it; and the record of each leads to what its thread had on its stack when it was recorded |
| Ledger.RecordedIff | xdagwallet/app/src/main/cpp/openssl/crypto/mem_dbg.c:481-654 | over every run at all, a block is recorded exactly when it is in the ledger |
| Handshake.OwnFirstOrder | xdagwallet/app/src/main/cpp/openssl/ssl/s3_clnt.c:567-590 | own ChangeCipherSpec, own Finished, a ChangeCipherSpec of the peer and then its Finished, in this order |
| Handshake.PeerFirstOrder | xdagwallet/app/src/main/cpp/openssl/ssl/s3_clnt.c:567-590 | a ChangeCipherSpec of the peer, its Finished, the own ChangeCipherSpec and the own Finished, in this order |
| HandshakeClient.Connection.GetMessage | xdagwallet/app/src/main/cpp/openssl/ssl/d1_pkt.c:1103-1151 | a message put back is handed up without reading; a ChangeCipherSpec is dropped by DTLS before it is expected |
| HandshakeClient.Connection.GetServerHello | xdagwallet/app/src/main/cpp/openssl/ssl/s3_clnt.c:776-899 | a HelloVerifyRequest is left to the next handler when no cookie was sent and refused otherwise; a ServerHello decides on resumption |
| HandshakeClient.Connection.GetHelloVerify | xdagwallet/app/src/main/cpp/openssl/ssl/d1_clnt.c:728-777 | another message is put back and ends the cookie exchange, a HelloVerifyRequest starts it over |
| HandshakeClient.Connection.CheckFinished | xdagwallet/app/src/main/cpp/openssl/ssl/s3_clnt.c:3062-3084 | a server that was offered a ticket resumes when its next message is a Finished or a NewSessionTicket |
| HandshakeClient.Connection.GetFinished | xdagwallet/app/src/main/cpp/openssl/ssl/s3_both.c:205-260 | a Finished is accepted only after a ChangeCipherSpec and with the right digest |
| HandshakeClient.Connection.Turn | xdagwallet/app/src/main/cpp/openssl/ssl/d1_clnt.c:167-585 | one turn of the loop, for DTLS and TLS, in every state |
| HandshakeClient.Connection.SentFinished | xdagwallet/app/src/main/cpp/openssl/ssl/s3_clnt.c:466-516 | where the loop goes after the own Finished: done, cut through, ticket or Finished of the server |
| HandshakeClient.Connection.Connect | xdagwallet/app/src/main/cpp/openssl/ssl/s3_clnt.c:215-636 | the loop takes turns until one returns; whatever the connection did before, it arrives only with the messages and in the order ClientSafety states |
| HandshakeClient.StepKeeps | xdagwallet/app/src/main/cpp/openssl/ssl/d1_clnt.c:167-585 | every turn keeps what each state stands for: the marks logged, and when resumption is settled |
| HandshakeClient.ClientSafety | xdagwallet/app/src/main/cpp/openssl/ssl/s3_clnt.c:215-636 | in every run from any state a connection can be left in, whatever comes in and whichever handlers fail, a client that arrives has sent its ChangeCipherSpec and Finished and received a matching Finished; after a full handshake its own came first, then a ChangeCipherSpec, then the Finished; after a resumed one the ChangeCipherSpec and Finished of the server came first, if none was pending at the start |
| HandshakeClient.NoneAtAll | xdagwallet/app/src/main/cpp/openssl/ssl/s3_both.c:205-237 | with a ChangeCipherSpec left pending a resumed handshake ends without one |
| HandshakeClient.ResumedSafeIff | xdagwallet/app/src/main/cpp/openssl/ssl/s3_clnt.c:215-636 | the order of resumed handshakes is kept over every run exactly when no ChangeCipherSpec was pending at the start |
| HandshakeClient.TurnsBound | xdagwallet/app/src/main/cpp/openssl/ssl/d1_clnt.c:225-300 | when no handler fails, the turns taken and the turns left are at most the turns left at the start and four for each time the client is sent back |
| HandshakeClient.OnePlusAfterthoughts | xdagwallet/app/src/main/cpp/openssl/ssl/s3_clnt.c:797-812 | the client is sent back at most once in place of a ServerHello; every other time follows a ServerHello |
| HandshakeClient.ClientArrives | xdagwallet/app/src/main/cpp/openssl/ssl/d1_clnt.c:167-585 | when no handler fails the client arrives within 23 turns, and four more for every HelloVerifyRequest that follows a ServerHello |
| HandshakeClient.ClientCircles | xdagwallet/app/src/main/cpp/openssl/ssl/d1_clnt.c:272-284 | without a bound on HelloVerifyRequests that follow a ServerHello there is none on the turns: for every k a run of 4 + 4k turns without a failure that has not arrived |
| ClientFlight.ClientFlights | xdagwallet/app/src/main/cpp/openssl/ssl/d1_clnt.c:167-585 | over every run that arrives, in DTLS and TLS, the log of the handlers that succeeded since the last ClientHello is the full or the resumed handshake of section 7.3 of RFC 2246 for the flags met: certificate, status, key exchange, request and ticket exactly when there, the certificate of the client exactly when asked for, its verify exactly when it holds one and need not skip it; before it there were only rounds that a HelloVerifyRequest ended |
| ClientFlight.ServerHelloTaken | xdagwallet/app/src/main/cpp/openssl/ssl/s3_clnt.c:797-812 | a client that arrives has taken a ServerHello, if no handler of a ServerHello or HelloVerifyRequest failed before |
| ClientFlight.NoServerHello | xdagwallet/app/src/main/cpp/openssl/ssl/d1_clnt.c:728-777 | without that, a client that refuses a HelloVerifyRequest seen in place of the ServerHello and is called again can arrive without one |
| ClientFlight.ClientFlushes | xdagwallet/app/src/main/cpp/openssl/ssl/s3_clnt.c:466-560 | a client that awaits a message or has arrived has flushed all it wrote, unless it was told to delay its Finished |
| HandshakeServer.Connection.Turn | xdagwallet/app/src/main/cpp/openssl/ssl/d1_srvr.c:173-674 | one turn of the loop of the server, in every state |
| HandshakeServer.Connection.GetFinished | xdagwallet/app/src/main/cpp/openssl/ssl/s3_both.c:205-260 | the Finished of the client is accepted only after its ChangeCipherSpec and with the right digest |
| HandshakeServer.Connection.Accept | xdagwallet/app/src/main/cpp/openssl/ssl/d1_srvr.c:173-674 | the loop takes turns until one returns; whatever the connection did before, it arrives only with the messages and in the order ServerSafety states |
| HandshakeServer.StepKeeps | xdagwallet/app/src/main/cpp/openssl/ssl/d1_srvr.c:173-674 | every turn keeps what each state stands for |
| HandshakeServer.ServerSafety | xdagwallet/app/src/main/cpp/openssl/ssl/d1_srvr.c:173-674 | in every run from any state a connection can be left in, flags included, a server that ends with new_session 2 has sent its ChangeCipherSpec and Finished and received a matching Finished; after a full handshake the messages of the client came first, if no ChangeCipherSpec was pending at the start; after a resumed one its own came first, if change_cipher_spec_ok was clear as well |
| HandshakeServer.FlagStaysSet | xdagwallet/app/src/main/cpp/openssl/ssl/d1_srvr.c:513-546 | a full handshake without a client certificate goes on from the Finished with change_cipher_spec_ok set |
| HandshakeServer.TooEarly | xdagwallet/app/src/main/cpp/openssl/ssl/d1_srvr.c:513-546 | a connection with either flag set has a run that ends a resumed handshake with the ChangeCipherSpec of the client ahead of the Finished of the server |
| HandshakeServer.ResumedSafeIff | xdagwallet/app/src/main/cpp/openssl/ssl/d1_srvr.c:513-546 | the order of resumed handshakes is kept over every run exactly when both flags were clear at the start |
| HandshakeServer.NoneAtAll | xdagwallet/app/src/main/cpp/openssl/ssl/s3_both.c:205-237 | with a ChangeCipherSpec left pending a full handshake ends without one |
| HandshakeServer.FullSafeIff | xdagwallet/app/src/main/cpp/openssl/ssl/d1_srvr.c:513-546 | the order of full handshakes is kept over every run exactly when no ChangeCipherSpec was pending at the start |
| HandshakeServer.AskingNeverArrives | xdagwallet/app/src/main/cpp/openssl/ssl/d1_srvr.c:609-646 | a server told to renegotiate only asks for it: it does not reach the end of a handshake until a ClientHello starts one |
| HandshakeServer.TurnsBound | xdagwallet/app/src/main/cpp/openssl/ssl/d1_srvr.c:173-674 | when no handler fails, the turns taken and the turns left are at most the turns left at the start, three for each cookie sent and nine for each second ClientHello |
| HandshakeServer.ServerArrives | xdagwallet/app/src/main/cpp/openssl/ssl/d1_srvr.c:173-674 | when no handler fails the server arrives within 17 turns, three more for every cookie it sends and nine more for every second ClientHello |
| HandshakeServer.ServerCircles | xdagwallet/app/src/main/cpp/openssl/ssl/d1_srvr.c:262-300 | without a bound on the cookies there is none on the turns: for every k a run of 1 + 3k turns without a failure that has not arrived |
| ServerFlight.ServerFlights | xdagwallet/app/src/main/cpp/openssl/ssl/d1_srvr.c:173-674 | over every run that arrives, the log of the handlers that succeeded since the last ClientHello is the full or the resumed handshake of section 7.3 of RFC 2246 for the flags met: certificate, status, key exchange, request and ticket exactly when their flags say, a CertificateVerify awaited exactly when the key exchange does not excuse it; it was resumed exactly when that hello named a session the server has; before it there were only cookies and first flights |
| ServerFlight.ServerFlushes | xdagwallet/app/src/main/cpp/openssl/ssl/d1_srvr.c:449-474 | a server that awaits a message or has arrived has flushed all it wrote |
| MessageReader.ParseFlat | xdagwallet/app/src/main/cpp/openssl/ssl/s3_both.c:425-446 | parsing printed messages gives them back, on a client without the empty HelloRequests |
| MessageReader.Reader.FillHeader | xdagwallet/app/src/main/cpp/openssl/ssl/s3_both.c:427-440 | the header is filled over any number of reads and returns, and nothing pending is lost |
| MessageReader.Reader.ReadHeader | xdagwallet/app/src/main/cpp/openssl/ssl/s3_both.c:425-459 | well-formed HelloRequests are passed over on a client |
| MessageReader.Reader.TakeHeader | xdagwallet/app/src/main/cpp/openssl/ssl/s3_both.c:461-504 | a header is taken exactly when its type is the one asked for, if any, and its size within the limit; the hash restarts exactly when any type will do, a second ClientHello is allowed and this is one |
| MessageReader.Reader.HandUp | xdagwallet/app/src/main/cpp/openssl/ssl/s3_both.c:507-525 | header and body are hashed once, and the message handed up is the next of the stream |
| MessageReader.Reader.HandUpAgain | xdagwallet/app/src/main/cpp/openssl/ssl/s3_both.c:408-421 | a message that was put back is handed up again without being hashed, unless another type is asked for |
| MessageReader.Reader.ReadMessage | xdagwallet/app/src/main/cpp/openssl/ssl/s3_both.c:423-534 | one more message is handed up, of the type and within the size asked for, or none; it stops short only where the transport does or at a header that is refused, and the hash restarts exactly at a second ClientHello; a call that returns early loses nothing |
| MessageReader.Reader.GetMessage | xdagwallet/app/src/main/cpp/openssl/ssl/s3_both.c:401-534 | over any pieces and any early returns the messages handed up, and those still pending, are the messages of the whole stream, and the hash has each since the last restart once; the last restart is exactly at the last second ClientHello |
| Ssl2Write.Fit | xdagwallet/app/src/main/cpp/openssl/ssl/s2_pkt.c:541-599 | the chunk is all that is left, or as much as the header can say to the block, and never empty; the record is whole blocks, and a three-byte header is used exactly for padding or escape |
| Ssl2Write.HeaderDecodesIff | xdagwallet/app/src/main/cpp/openssl/ssl/s2_pkt.c:203-216 | a header is read as it was written exactly when its length is at most 16383 with three bytes, 32767 with two |
| Ssl2Write.RecordDecodesIff | xdagwallet/app/src/main/cpp/openssl/ssl/s2_pkt.c:623-642 | the reader finds length and padding of a record exactly when it has a two-byte header or is at most 16383 long |
| Ssl2Write.PaddedTooFar | xdagwallet/app/src/main/cpp/openssl/ssl/s2_pkt.c:577-592 | 16361 bytes of data with a MAC of 16 in blocks of eight are padded to 16384, which is read as zero |
| Ssl2Write.Writer.WritePending | xdagwallet/app/src/main/cpp/openssl/ssl/s2_pkt.c:469-514 | what the transport took and what is kept stay the records in order; a retry with less data, or with another buffer, is refused, and any other goes on until the transport refuses or has all of it |
| Ssl2Write.Writer.BuildRecord | xdagwallet/app/src/main/cpp/openssl/ssl/s2_pkt.c:531-653 | the next record carries the next chunk of the data, as long as Fit says, and nothing else |
| Ssl2Write.Writer.NDoSslWrite | xdagwallet/app/src/main/cpp/openssl/ssl/s2_pkt.c:516-655 | a kept record goes first, with its own length as the result |
| Ssl2Write.Writer.Write | xdagwallet/app/src/main/cpp/openssl/ssl/s2_pkt.c:418-467 | called again with the same buffer over any refusals, each byte goes into exactly one record, what the transport took is a prefix of the records, it returns early only where the transport refuses, and the final result is the length |
| Address.Coder.Init | xdagwallet/app/src/main/cpp/xdaglib/client/address.c:11-22 | the inverse table holds the digit of every letter and 0xFF elsewhere |
| Address.LetterIs | xdagwallet/app/src/main/cpp/xdaglib/client/address.c:7 | the letters are A to Z, a to z, 0 to 9, + and /, in this order |
| Address.Coder.NextDigit | xdagwallet/app/src/main/cpp/xdaglib/client/address.c:31-35 | other characters are passed over up to the next letter or the NUL |
| Address.Coder.TakeDigit | xdagwallet/app/src/main/cpp/xdaglib/client/address.c:36-43 | a digit goes into the accumulator, and the right byte out of it as soon as there is one |
| Address.Coder.AddressToHash | xdagwallet/app/src/main/cpp/xdaglib/client/address.c:25-51 | the parser gives the hash the address stands for, or -1 with exactly the bytes written whose digits had come |
| Address.Coder.HashToAddress | xdagwallet/app/src/main/cpp/xdaglib/client/address.c:54-75 | the printer gives the address of the hash in the next of four buffers and leaves the other three alone |
| Address.ShiftIn6 | xdagwallet/app/src/main/cpp/xdaglib/client/address.c:36-42 | whatever overflowed, the low bits of the 32-bit accumulator are the last two digits |
| Address.ShiftIn8 | xdagwallet/app/src/main/cpp/xdaglib/client/address.c:63-69 | whatever overflowed, the low bits of the 32-bit accumulator are the last two bytes |
| Address.SameNumber | xdagwallet/app/src/main/cpp/xdaglib/client/address.c:54-75 | the digits printed are the bytes, read as one number and written in base 64 |
| Address.ParseOfPrint | xdagwallet/app/src/main/cpp/xdaglib/client/address.c:25-75 | parsing a printed hash gives its first 24 bytes and eight zero bytes, whatever follows the NUL |
| Address.PrintOfParse | xdagwallet/app/src/main/cpp/xdaglib/client/address.c:25-75 | printing a parsed address gives its first 32 letters; parsing fails exactly when fewer come before the NUL |
| Address.StaysForThree | xdagwallet/app/src/main/cpp/xdaglib/client/address.c:56-58 | a returned buffer is unchanged by the next three prints, and overwritten by the fourth |

## Left out

- Cryptography: MACs, ciphers and digests are parameters; of a cipher it is assumed that decryption keeps
  lengths and restores a stream, or all blocks but the first.
- Sockets and BIOs: a transport is a function that says how much it takes or gives, or refuses.
- Allocation failures and the error queue.
- The ChangeCipherSpec branch of dtls1_do_write, the retry after an exceeded MTU (d1_both.c:333-347),
  DTLS1_BAD_VER, listening, compression, SSL_OP_TLS_BLOCK_PADDING_BUG, and the timers of d1_lib.c.
- Records of the next epoch that are buffered and processed later without a second window check
  (d1_pkt.c:307-313): the replay theorem is about records of the current epoch that take the direct path.
- The shortcut of satsub64be for big-endian machines with 64-bit integers (d1_pkt.c:129-144).
- Transcript.HandshakeReader.ReassembleFragment: reading the body of a fragment does not fail; when it does, or
  falls short, the code frees an entry that is still queued (d1_both.c:654-658 and 691-694). What C does after
  an overrun is not determined; the model keeps the state as it was and reports it. The results about agreement
  show that no overrun happens there.
- Transcript.HandshakeReader.ProcessRecord: a record holds one fragment, and one that does not fails; more
  fragments in a record, which the code reads one by one, and reuse of a message are not modelled.
- EndToEnd.HashesAgree: every call of the sender has ended well, and none starts while another is under way;
  records of handshakes before are not in the network, which leaves out a Finished sent again into the next one.
- Transcript.TranscriptAgreement: assumes that all fragments of a message agree on its length and that cut
  messages do not end on a byte boundary of the bitmask, for which AgreementFailsOnByteBoundaries shows the
  failure; the hash begins again with a handshake, and not also at a cookie (d1_srvr.c:297); queue entries are
  values, so that aliasing between the queue and its entries does not show.
- Fragmentation.HandshakeWriter.DoWrite: writes to the record layer succeed; only flushes may fail. The MTU is
  what each turn finds it to be; how it is chosen is SelectMtu.
- RecordNumbers.DistinctIff: no number leaves its field: fewer than 2^48 records under one counter and fewer
  than 2^16 epochs, which the code does not check.
- RecordNumbers.RecordWriter.WriteMessage: a retransmitted message is a number of records; how it is cut again
  is in Fragmentation.
- RecordCodec.ReadRecord: a datagram that holds more than one record is read up to the end of the first.
- RecordCodec.OpenSeal: assumes that there is some data, since do_dtls1_write sends nothing when there is none,
  and that it fits a record, as dtls1_write_bytes asserts.
- Calendar.MachineAdjustIsExact: overflow wraps around in two's complement, as on the target, where C leaves it
  open; times of the year -4800 and before are not in it.
- MemCheck.EveryInterleaving: threads make balanced calls to disable and enable; switching the checks on and off
  as a whole, which the source allows only without other threads, is left out.
- InfoStacks.Tracker.Push: checking is on throughout, and file, line and order of a block are left out; nodes are
  a map from addresses, so that a dangling pointer would show, and the lock is that of MemCheck.
- HandshakeClient.Connection.Turn: handlers other than those modelled succeed or exit with any flags, the states
  within a handler are one with those before it, and writing does not read.
- HandshakeServer.ServerSafety: is about dtls1_accept without listening.
- ClientFlight.ClientFlights: the log has the handlers that succeeded, so a certificate that is sent as an alert in
  SSL 3.0 counts as one; a handler that leaves its message for the next one has not taken it.
- Arrival.AllArrive: the limits of the reader hold every message of the sender, and a record holds one fragment;
  of messages more than ten ahead PutByIff says that they are dropped.
- MessageReader.Reader.GetMessage: a handler that fails on a message of another type ends the connection.
- Ssl2Write.Writer.BuildRecord: the record is a value and not built in wbuf; with the escape bit, which nothing
  sets, records longer than their header can say are built as the code does.
- Address.Coder.HashToAddress: the count of calls is unbounded; only its two low bits are used.
- ssl2_write drives the handshake first when it is not over; that and the SSL error state are left out.
- read_n of s2_pkt.c, ex_data.c, the dynamic locks of cryptlib.c, the buffer freelist of s3_both.c, the
  EBCDIC tables, the platform files, the method tables and the JNI bridge: they would only add easy members.
