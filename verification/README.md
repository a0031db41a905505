# Verified core of an Xray server

This project models the stream protocols and the concurrent structures at the heart of a trimmed Xray-core server, and
proves what they promise. Two ends keep hidden state in step while bytes arrive in arbitrary pieces; the theorems say
that for every input, every cut into pieces and every interleaving the bytes come out right.

| modules | part of the server |
|---|---|
| `VisionUnpadding`, `VisionTraffic`, `VisionReader`, `VisionRecords`, `VisionWriter`, `VisionEnds` | the Vision padding protocol: blocks, the resumable unpadding automaton, the handover to raw copy, the writer's grammar, and the two ends together |
| `EncryptionSuite`, `EncryptionXor`, `EncryptionRecords`, `EncryptionRelays`, `EncryptionHandshake`, `EncryptionPadding`, `EncryptionTickets` | the VLESS encryption layer: relay chain, 1-RTT and 0-RTT handshakes, record layer with rekeying, header masking, padding draws, the ticket store |
| `Pipe`, `PipeObjects` | the bounded pipe as a state machine over all interleavings, its objects, and the sniffing cache in front of it |
| `MultiBuffers`, `BufferedReading`, `BufferPool` | lists of buffers, the buffered reader, one buffer's window, the buffer pool |
| `MuxFrame`, `MuxReaders`, `MuxLink`, `MuxObjects`, `MuxEnds`, `MuxSessions` | mux frames and addresses, payload readers, demultiplexing of a whole link, the objects at the two ends and both together, the session manager |
| `HappyEyeballs`, `HappyEyeballsLoop` | the connection race of section 5 of RFC 8305, its event loop, the address order |
| `TlsFragment` | fragmenting a TLS hello |
| `Bytes`, `Options`, `NetAddress` | byte strings, optional values, network addresses |

Code that changes state step by step is a class or a method with loops, proved against a function of the old state; the
laws are then proved about that function. Protocols with several actors are state machines whose runs are arbitrary
sequences of enabled steps. Randomness, clocks and what the network delivers are parameters or nondeterministic choices.
Cryptographic primitives are a datatype of functions (`EncryptionSuite.Suite`) constrained only by the laws the code
relies on: Open undoes Seal, the wrong AEAD choice fails, Diffie-Hellman commutes, decapsulation undoes encapsulation.

## Where the code keeps its promise only under a condition

- A read boundary inside the terminal block's five-byte header can make `VisionReader` leave padding too early.
  `VisionReader.Handover` gives the exact condition, `CutAfterCommandMisfires` an instance.
- A chunk that starts with the UUID after the padded stream has ended opens it again: `VisionUnpadding.RoundTrip` and
  `VisionReader.Handover` are if-and-only-ifs, `ReopenedStreamLosesBytes` an instance.
- `ParsePadding` adds up its lengths in 64 bits without an overflow check: `EncryptionPadding.DrawsInRange` and
  `OverflowAccepted`.
- A domain of 256 bytes passes `writeAddress` and is written with length 0. An address with length 0 is refused by the
  reader, which then looks at its whole scratch buffer (port, type and length) instead of at no text; so neither that
  domain nor the empty one survives: `MuxFrame.AddressRoundTrip`, `LongestDomainIsRefused`, `EmptyDomainIsRefused`.
- Mux metadata is written without a size check, and read only up to 512 bytes: `MuxFrame.FrameRoundTrip`, and
  `LongMetadataIsRefused` as an instance. Inbound addresses that are IPs, as those of a connection are, keep it under
  306 bytes: `MuxFrame.InboundIPsFit`.
- A mux handler reports success when the link ends inside a payload: `MuxLink.TakesOneFrame`, and `CutLinkIsHandled` as
  an instance.
- The connection limit of a mux client is cut to 16 bits; a limit whose low 16 bits are zero is none, and identifiers
  repeat: `MuxSessions.EveryRun` and `ReusedWithoutLimit`.

## Model

| member | source | states |
|---|---|---|
| `VisionUnpadding.FeedBlock` | fork/xray-core/proxy/proxy.go:624-677 | a whole block yields exactly its content and leaves the automaton at the next header or initial |
| `VisionUnpadding.FeedTerminated` | fork/xray-core/proxy/proxy.go:624-677 | Continue blocks and one terminal block yield all contents; the automaton becomes initial at the last byte, not before |
| `VisionUnpadding.PassThrough` | fork/xray-core/proxy/proxy.go:616-623 | in the initial state chunks pass unchanged unless one of at least 21 bytes starts with the UUID, and then bytes are lost |
| `VisionUnpadding.RoundTrip` | fork/xray-core/proxy/proxy.go:561-681 | any contents padded as Continue blocks and one End or Direct block, any tail, any chunks with a first of at least 21 bytes: contents and tail come out exactly if no later chunk opens the stream again; the final command is kept |
| `VisionUnpadding.RoundTripOpen` | fork/xray-core/proxy/proxy.go:561-681 | the same for a stream that is still in its Continue blocks |
| `VisionUnpadding.ShortFirstChunkLeaks` | fork/xray-core/proxy/proxy.go:616-623 | a first chunk of fewer than 21 bytes comes out as it is |
| `VisionUnpadding.ReopenedStreamLosesBytes` | fork/xray-core/proxy/proxy.go:616-623 | user bytes behind an End block that start with the UUID are taken for a padded stream, and fewer come out |
| `VisionTraffic.Turn` | fork/xray-core/proxy/proxy.go:625-663 | one loop turn consumes at least one byte and is the automaton on the bytes consumed |
| `VisionTraffic.Unpad` | fork/xray-core/proxy/proxy.go:624-680 | the loop is the automaton on the whole buffer, and nothing written to the output is cut off |
| `VisionTraffic.TrafficState.constructor` | fork/xray-core/proxy/proxy.go:143-173 | both directions start initial, padding, not direct |
| `VisionTraffic.TrafficState.XtlsUnpadding` | fork/xray-core/proxy/proxy.go:600-681 | the counters of the direction read become those of the automaton, the other direction and the flags stay, the output is the automaton's |
| `VisionTraffic.TrafficState.XtlsFilterTls` | fork/xray-core/proxy/proxy.go:684-735 | flags are only raised, EnableXtls implies TLS 1.2 or above implies TLS, the padding state stays |
| `VisionTraffic.TrafficState.NoteHello` | fork/xray-core/proxy/proxy.go:690-707 | a hello raises flags in order, and only a hello does |
| `VisionTraffic.CipherAlwaysInArray` | fork/xray-core/proxy/proxy.go:696-699 | a window with 301 bytes of array never runs out of it when the cipher suite is read |
| `VisionTraffic.CipherOutsideArray` | fork/xray-core/proxy/proxy.go:696-699 | an array that ends with a 79-byte hello can |
| `VisionReader.UpdateInside` | fork/xray-core/proxy/proxy.go:258-267 | inside a terminated stream the flag update leaves padding exactly at the misfiring places of the terminal header |
| `VisionReader.Handover` | fork/xray-core/proxy/proxy.go:204-299 | over every arrival of a terminated stream and whatever follows it: padding is left early exactly if a read ends at a misfiring place of the terminal header; otherwise contents and tail come out exactly if no chunk reopens the stream, and direct copy is on exactly for Direct |
| `VisionReader.StreamHandover` | fork/xray-core/proxy/proxy.go:204-299 | the same for any byte stream with a terminal header, and any tail |
| `VisionReader.RawAfterHandover` | fork/xray-core/proxy/proxy.go:229-234 | after the switch every read is delivered as it arrives, and the mode never changes again |
| `VisionReader.BehindEnd` | fork/xray-core/proxy/proxy.go:229-268 | behind the padded stream reads pass as they arrive exactly if no filtered one reopens it |
| `VisionReader.DirectRun` | fork/xray-core/proxy/proxy.go:204-299 | a whole run to raw copy delivers contents, the bytes behind them in the same read, the TLS layer's leftovers and the raw bytes, in that order |
| `VisionReader.EndRun` | fork/xray-core/proxy/proxy.go:204-299 | a whole run past an End block delivers contents and everything behind it |
| `VisionReader.CutAfterCommandMisfires` | fork/xray-core/proxy/proxy.go:258-264 | a Direct block cut behind its command byte switches too early |
| `VisionReader.VisionReader.CompactEntry` | fork/xray-core/proxy/proxy.go:242-253 | one entry unpadded and stored behind those kept; no unread entry is touched |
| `VisionReader.VisionReader.Compact` | fork/xray-core/proxy/proxy.go:241-257 | in-place compaction keeps order and contents, the write index never passes the read index |
| `VisionReader.VisionReader.UpdateFlags` | fork/xray-core/proxy/proxy.go:258-267 | the two flags become those of the reference update |
| `VisionReader.VisionReader.TakeOver` | fork/xray-core/proxy/proxy.go:273-297 | TLS input leftovers, then rawInput leftovers are appended and given up |
| `VisionReader.VisionReader.Process` | fork/xray-core/proxy/proxy.go:236-271 | one read is the reference read on its chunks |
| `VisionReader.VisionReader.ReadOnce` | fork/xray-core/proxy/proxy.go:204-299 | one call: content first, then at the switch what the TLS layer held, plain before raw |
| `VisionReader.VisionReader.ReadMultiBuffer` | fork/xray-core/proxy/proxy.go:204-299 | every call extends the run: mode and everything delivered so far are those of the reads so far, leftovers are taken once |
| `VisionRecords.WholeRecordsExactly` | fork/xray-core/proxy/proxy.go:483-512 | the flat check accepts exactly the encodings of lists of non-empty 17 03 03 records |
| `VisionRecords.RecordCursor.More` | fork/xray-core/proxy/proxy.go:429-440 | moves over exhausted and empty views, keeps the unread bytes |
| `VisionRecords.RecordCursor.Next` | fork/xray-core/proxy/proxy.go:442-450 | the next byte of the flattened rest |
| `VisionRecords.RecordCursor.ReadHeader` | fork/xray-core/proxy/proxy.go:452-463 | five bytes across boundaries, or fewer are left |
| `VisionRecords.RecordCursor.Skip` | fork/xray-core/proxy/proxy.go:465-481 | drops n bytes across boundaries, or fewer are left |
| `VisionRecords.IsCompleteRecord` | fork/xray-core/proxy/proxy.go:484-512 | for every split into buffers the cursor decides the check on the flattened bytes |
| `VisionWriter.PaddingLength` | fork/xray-core/proxy/proxy.go:562-582 | the length drawn and cut down lies between 0 and the room left, and long padding reaches its floor |
| `VisionWriter.XtlsPadding` | fork/xray-core/proxy/proxy.go:561-597 | the buffer is the UUID owed and one well-formed block within one buffer: no truncated Write, no Extend panic |
| `VisionWriter.Reshape` | fork/xray-core/proxy/proxy.go:531-551 | one buffer keeps its bytes, its parts leave room for a block's structure |
| `VisionWriter.ReshapeMultiBuffer` | fork/xray-core/proxy/proxy.go:515-558 | the bytes stay, every buffer leaves room for the structure, and a list with room is unchanged |
| `VisionWriter.GrammarPadded` | fork/xray-core/proxy/proxy.go:370-411 | appending what one padded call produced keeps the wire grammar |
| `VisionWriter.VisionWriter.PadAll` | fork/xray-core/proxy/proxy.go:374-407 | the padding loop yields Continue blocks, or blocks ended by Direct exactly when direct copy is asked for; only End lets unpadded bytes follow |
| `VisionWriter.VisionWriter.SwapIfDirect` | fork/xray-core/proxy/proxy.go:348-361 | the writer is replaced exactly when the previous call asked for it, at most once |
| `VisionWriter.VisionWriter.Commit` | fork/xray-core/proxy/proxy.go:370-411 | what a padded call produced goes out and the grammar holds |
| `VisionWriter.VisionWriter.WriteUnpadded` | fork/xray-core/proxy/proxy.go:409-411 | after padding bytes go out as they are; nothing follows a Direct block on the TLS-layer writer |
| `VisionWriter.VisionWriter.WriteMultiBuffer` | fork/xray-core/proxy/proxy.go:336-418 | over every call the stream is the UUID once, Continue blocks, at most one terminal block, then raw bytes; the payload of the call is appended |
| `VisionWriter.VisionWriter.WriteNil` | fork/xray-core/proxy/proxy.go:370-373 | a nil buffer becomes one empty Continue block |
| `VisionWriter.WriterReachesReader` | fork/xray-core/proxy/proxy.go:336-681 | whatever was written in whatever calls, unpadding any cut of it yields the payload, unless bytes behind an End block open the stream again |
| `VisionEnds.DirectReaches` | fork/xray-core/proxy/proxy.go:204-418 | whatever was written in whatever calls, if no read stops at a misfiring place the reader's run to raw copy and beyond delivers exactly the payload |
| `VisionEnds.EndReaches` | fork/xray-core/proxy/proxy.go:204-418 | the same past an End block, if no chunk reopens the stream |
| `VisionEnds.ObjectsAgree` | fork/xray-core/proxy/proxy.go:204-418 | the reader object has delivered what the writer object was given |
| `EncryptionSuite.LawsAreConsistent` | fork/xray-core/proxy/vless/encryption/common.go:157-182 | the laws assumed of the primitives can hold together |
| `EncryptionSuite.XorInPlace` | fork/xray-core/proxy/vless/encryption/xor.go:55-60 | XORKeyStream on a slice is the keystream XOR of that slice and touches nothing else |
| `EncryptionXor.UnmaskMask` | fork/xray-core/proxy/vless/encryption/xor.go:41-93 | a reader in the writer's state recovers the exact bytes |
| `EncryptionXor.XorRoundTrip` | fork/xray-core/proxy/vless/encryption/xor.go:41-93 | any split of the writes, any fragmentation of the reads: the exact bytes |
| `EncryptionXor.XorConn.Write` | fork/xray-core/proxy/vless/encryption/xor.go:41-67 | masks in place as the byte-by-byte reference does, partial headers stay under five bytes |
| `EncryptionXor.XorConn.Read` | fork/xray-core/proxy/vless/encryption/xor.go:69-93 | unmasks in place as the reference does; the peer keystream is used only behind the bytes to skip |
| `EncryptionXor.XorConn.ReadServerRandom` | fork/xray-core/proxy/vless/encryption/common.go:84-93 | the 0-RTT client reads the 16 random bytes, however fragmented, with its peer keystream still nil |
| `EncryptionRecords.NextNonceValue` | fork/xray-core/proxy/vless/encryption/common.go:184-192 | IncreaseNonce is +1 modulo 256 to the length |
| `EncryptionRecords.IncreaseNonce` | fork/xray-core/proxy/vless/encryption/common.go:184-192 | the carry loop in place computes the next nonce |
| `EncryptionRecords.CountsRecords` | fork/xray-core/proxy/vless/encryption/common.go:53-76 | after any run of records short of exhaustion the AEAD is the same with its counter up by their number |
| `EncryptionRecords.RekeysAtExhaustion` | fork/xray-core/proxy/vless/encryption/common.go:61-68 | record i is sealed with nonce k + i + 1, and exactly the one that finds the counter at its maximum makes the new key |
| `EncryptionRecords.NoNonceTwice` | fork/xray-core/proxy/vless/encryption/common.go:53-76 | two records of any run, from any counter, have different nonces unless a new key was made between them |
| `EncryptionRecords.SealersSeal` | fork/xray-core/proxy/vless/encryption/common.go:53-76 | what goes out is, record by record, sealed by those AEADs |
| `EncryptionRecords.ReadInSync` | fork/xray-core/proxy/vless/encryption/common.go:80-150 | one Read of a synchronised connection returns the next bytes, at least one, and stays synchronised, rekeying included |
| `EncryptionRecords.ReadsDeliver` | fork/xray-core/proxy/vless/encryption/common.go:80-150 | any run of Reads with non-empty buffers returns a prefix of what was written, and all of it if long enough |
| `EncryptionRecords.NothingLeft` | fork/xray-core/proxy/vless/encryption/common.go:106-109 | when everything was returned the next Read waits for the connection |
| `EncryptionRecords.CommonConn.WriteRecord` | fork/xray-core/proxy/vless/encryption/common.go:53-76 | one turn sends one sealed record behind what is owed and rolls the AEAD |
| `EncryptionRecords.CommonConn.Write` | fork/xray-core/proxy/vless/encryption/common.go:47-78 | pieces of at most 8192 bytes, one record each, under the AEADs the reference names |
| `EncryptionRecords.CommonConn.Settle` | fork/xray-core/proxy/vless/encryption/common.go:84-102 | the server's random bytes, then the peer's padding, are taken off first |
| `EncryptionRecords.CommonConn.ReadRecord` | fork/xray-core/proxy/vless/encryption/common.go:106-149 | one record is opened, the surplus kept as leftover, the AEAD rolled |
| `EncryptionRecords.CommonConn.Read` | fork/xray-core/proxy/vless/encryption/common.go:80-150 | Read into the caller's buffer is the reference step, errors included |
| `EncryptionRecords.RecordLayer` | fork/xray-core/proxy/vless/encryption/common.go:47-150 | any Writes at one end and any non-empty Read buffers at the other: the bytes in order, no loss, no repeat |
| `EncryptionRelays.OfferRecovered` | fork/xray-core/proxy/vless/encryption/server.go:141-163 | the relay's owner derives the client's key from the offer, for both kinds of key |
| `EncryptionRelays.RelayUnmasked` | fork/xray-core/proxy/vless/encryption/server.go:133-144 | the two XORs of the server undo those of the client |
| `EncryptionRelays.RelayChain` | fork/xray-core/proxy/vless/encryption/client.go:78-110 | for any number and mix of keys the server's loop undoes the chain, consumes exactly its bytes and ends with the client's last key |
| `EncryptionRelays.WriteRelay` | fork/xray-core/proxy/vless/encryption/client.go:82-103 | one relay written in place |
| `EncryptionRelays.WriteRelayAndHash` | fork/xray-core/proxy/vless/encryption/client.go:82-109 | and the hash of the next key behind it |
| `EncryptionRelays.FillRelays` | fork/xray-core/proxy/vless/encryption/client.go:78-110 | the client's loop fills the relay part with the chain |
| `EncryptionRelays.UnmaskInPlace` | fork/xray-core/proxy/vless/encryption/server.go:134-143 | the two XORs in place recover the offer |
| `EncryptionRelays.CheckHash` | fork/xray-core/proxy/vless/encryption/server.go:168-174 | the hash in place is accepted exactly if it is the next key's |
| `EncryptionRelays.OpenInPlace` | fork/xray-core/proxy/vless/encryption/server.go:131-175 | the server's loop, in place, is the reference |
| `EncryptionHandshake.ServerOpens` | fork/xray-core/proxy/vless/encryption/server.go:117-196 | the server finds the client's key, its AEAD choice and the length, and has consumed exactly the front |
| `EncryptionHandshake.ExchangeAgrees` | fork/xray-core/proxy/vless/encryption/server.go:237-265 | both sides compute the same forward-secret key |
| `EncryptionHandshake.ServerAccepts` | fork/xray-core/proxy/vless/encryption/server.go:237-328 | the server accepts the hello and has read all of it |
| `EncryptionHandshake.ClientAccepts` | fork/xray-core/proxy/vless/encryption/client.go:155-210 | the client accepts the server hello and has read all but the padding bytes |
| `EncryptionHandshake.OneRtt` | fork/xray-core/proxy/vless/encryption/client.go:65-210 | same united key; each side's sending AEAD is the other's receiving one up to the pending padding; the XOR skips line up |
| `EncryptionHandshake.ZeroRtt` | fork/xray-core/proxy/vless/encryption/server.go:198-235 | with a ticket the server knows: same united key, matching AEADs both ways; the client skips exactly the random bytes with no keystream yet, and the keystream it then makes is the server's |
| `EncryptionHandshake.NewMasks` | fork/xray-core/proxy/vless/encryption/xor.go:29-39 | the masks a side puts around its connection start at the first header behind its skips |
| `EncryptionHandshake.MeetServer` | fork/xray-core/proxy/vless/encryption/common.go:84-93 | the client's first read takes the random bytes through its masks as they are and installs the server's keystream |
| `EncryptionHandshake.CountersAfterOneRtt` | fork/xray-core/proxy/vless/encryption/server.go:290-294 | the client's counter is at 0 and the server's at 3 when the first record comes |
| `EncryptionHandshake.ServerHelloNonce` | fork/xray-core/proxy/vless/encryption/server.go:290-290 | the explicit nonce under the relay key is none the client's hello counts up to |
| `EncryptionHandshake.SkipsLineUp` | fork/xray-core/proxy/vless/encryption/client.go:203-208 | a reader that skips the bytes still due unmasks exactly what was masked behind them |
| `EncryptionHandshake.TalkDelivers` | fork/xray-core/proxy/vless/encryption/common.go:47-150 | after either handshake, whatever one side writes, masked and fragmented in any way, the other side's reads return in order, all of it given enough reads |
| `EncryptionPadding.DrawsInRange` | fork/xray-core/proxy/vless/encryption/common.go:223-280 | every draw totals 35 to 65553 exactly if the greatest draw does, which holds whenever the checked sum did not overflow |
| `EncryptionPadding.OverflowAccepted` | fork/xray-core/proxy/vless/encryption/common.go:246-255 | two accepted lengths whose sum wraps |
| `EncryptionPadding.RandBetween` | fork/xray-core/common/crypto/crypto.go:12-21 | the value lies in the half-open range, whichever way round the bounds are |
| `EncryptionPadding.CreatPadding` | fork/xray-core/proxy/vless/encryption/common.go:259-280 | the lengths are a possible draw and the result is their 64-bit total, in range whenever the greatest draw is |
| `EncryptionPadding.SendFragments` | fork/xray-core/proxy/vless/encryption/server.go:296-307 | the fragments are the whole hello, in order |
| `EncryptionTickets.SweptIsExpired` | fork/xray-core/proxy/vless/encryption/server.go:280-280 | a ticket whose minute has come has outlived the longest lifetime |
| `EncryptionTickets.IssueLasts` | fork/xray-core/proxy/vless/encryption/server.go:278-284 | a fresh ticket becomes the last of its minute, earlier minutes keep theirs |
| `EncryptionTickets.LastsKept` | fork/xray-core/proxy/vless/encryption/server.go:90-103 | after a sweep every entry a later sweep can find names a live ticket |
| `EncryptionTickets.LastsSwept` | fork/xray-core/proxy/vless/encryption/server.go:90-103 | the entry found names a live ticket and everything dropped has expired |
| `EncryptionTickets.DeletedKeys` | fork/xray-core/proxy/vless/encryption/server.go:95-101 | exactly the sessions of the tickets behind the named one are left |
| `EncryptionTickets.TicketStore.constructor` | fork/xray-core/proxy/vless/encryption/server.go:78-81 | an empty store |
| `EncryptionTickets.TicketStore.DrawSeconds` | fork/xray-core/proxy/vless/encryption/server.go:271-276 | the lifetime drawn never exceeds the longest one |
| `EncryptionTickets.TicketStore.Issue` | fork/xray-core/proxy/vless/encryption/server.go:278-284 | the ticket is stored and the store's invariant kept |
| `EncryptionTickets.TicketStore.MakeTicket` | fork/xray-core/proxy/vless/encryption/server.go:269-284 | a drawn lifetime, a stamped ticket, stored exactly if it lives at all |
| `EncryptionTickets.TicketStore.Drop` | fork/xray-core/proxy/vless/encryption/server.go:95-101 | the loop drops the tickets up to the named one with their sessions, and nothing else |
| `EncryptionTickets.TicketStore.Sweep` | fork/xray-core/proxy/vless/encryption/server.go:82-105 | sessions' keys stay the set of tickets; no session goes before its longest lifetime has passed |
| `EncryptionTickets.TicketStore.Find` | fork/xray-core/proxy/vless/encryption/server.go:210-212 | a ticket is found throughout its lifetime, with its own key, and never if it was not issued |
| `EncryptionTickets.TicketStore.Admit` | fork/xray-core/proxy/vless/encryption/server.go:223-225 | a pair of ticket and key is accepted exactly if it never was before |
| `Pipe.ReachableInv` | fork/xray-core/transport/pipe/pipe.go:87-240 | in every reachable interleaving: wakeups pending where needed, bytes conserved, the queue within its limit and one write, done exactly when not open |
| `Pipe.KeepsReaderServed` | fork/xray-core/transport/pipe/pipe.go:109-137 | a parked reader with data has a token or a writer about to leave one, after every step |
| `Pipe.KeepsWriterServed` | fork/xray-core/transport/pipe/pipe.go:159-205 | a parked writer has data before it, a token, a reader about to leave one, or another writer about to try |
| `Pipe.NoLostWakeup` | fork/xray-core/transport/pipe/pipe.go:87-240 | an open pipe at rest keeps its reader waiting only for lack of data, and writers only while data waits and nobody reads |
| `Pipe.NobodyStaysParked` | fork/xray-core/transport/pipe/pipe.go:207-240 | after Close or Interrupt a pipe at rest has no call in progress |
| `Pipe.ComesToRest` | fork/xray-core/transport/pipe/pipe.go:122-205 | from every state, in every order, the pipe's own steps run out within a computed bound |
| `Pipe.KeepsConserved` | fork/xray-core/transport/pipe/pipe.go:109-240 | bytes read and buffered are the bytes accepted, in lock order, until an Interrupt |
| `Pipe.EofRepeats` | fork/xray-core/transport/pipe/pipe.go:94-101 | a drained closed pipe says end of stream for ever, whatever happens |
| `Pipe.CloseDrains` | fork/xray-core/transport/pipe/pipe.go:94-119 | the first look after Close takes all that is buffered |
| `Pipe.EofIsComplete` | fork/xray-core/transport/pipe/pipe.go:94-119 | who is told the end of the stream has been given everything accepted |
| `Pipe.AcceptedWithinLimit` | fork/xray-core/transport/pipe/pipe.go:61-92 | a write goes in exactly if the pipe is open and its size is within the limit |
| `PipeObjects.Notifier.Signal` | fork/xray-core/common/signal/notifier.go:15-22 | never blocks, leaves exactly one token |
| `PipeObjects.Notifier.Take` | fork/xray-core/common/signal/notifier.go:23-26 | takes the token |
| `PipeObjects.PipeQueue.State` | fork/xray-core/transport/pipe/pipe.go:87-107 | the state error of the reference, nothing for an open pipe's reader |
| `PipeObjects.PipeQueue.ReadInternal` | fork/xray-core/transport/pipe/pipe.go:109-120 | the reference look; the bytes taken are accounted for |
| `PipeObjects.PipeQueue.WriteInternal` | fork/xray-core/transport/pipe/pipe.go:159-173 | the reference try; accepted bytes are accounted for |
| `PipeObjects.PipeQueue.Close` | fork/xray-core/transport/pipe/pipe.go:207-218 | closes an open pipe, else nothing |
| `PipeObjects.PipeQueue.Interrupt` | fork/xray-core/transport/pipe/pipe.go:221-240 | drops what is buffered, and a closed pipe with data becomes an interrupted one |
| `PipeObjects.PipeQueue.ReadMultiBufferTimeout` | fork/xray-core/transport/pipe/pipe.go:139-157 | the result of the last look, or a timeout when the pipe is open and empty; a result leaves a write token |
| `PipeObjects.CachedReader.Cache` | fork/xray-core/app/dispatcher/default.go:37-52 | shows what lies ahead and leaves the stream later read unchanged |
| `PipeObjects.CachedReader.ReadMultiBufferTimeout` | fork/xray-core/app/dispatcher/default.go:54-83 | the cache first, then the pipe; nothing is lost or repeated |
| `PipeObjects.CachedReader.Interrupt` | fork/xray-core/app/dispatcher/default.go:85-94 | the cache goes and the pipe is interrupted |
| `PipeObjects.CachedReader.Transparent` | fork/xray-core/app/dispatcher/default.go:37-83 | read, cached and buffered bytes are the bytes accepted |
| `MultiBuffers.Len` | fork/xray-core/common/buf/multi_buffer.go:226-236 | the number of bytes of the flattened list |
| `MultiBuffers.IsEmpty` | fork/xray-core/common/buf/multi_buffer.go:239-246 | true exactly if the flattened list is empty |
| `MultiBuffers.Copy` | fork/xray-core/common/buf/multi_buffer.go:66-76 | the front of the flattened list, as much as fits |
| `MultiBuffers.SplitBytes` | fork/xray-core/common/buf/multi_buffer.go:100-123 | taken and left are the flattened list cut at exactly that size |
| `MultiBuffers.SplitFirst` | fork/xray-core/common/buf/multi_buffer.go:161-170 | the first buffer and the rest |
| `MultiBuffers.SplitSize` | fork/xray-core/common/buf/multi_buffer.go:173-204 | the parts are the flattened list, the front within the size and as late a cut as whole buffers allow |
| `MultiBuffers.MergeMulti` | fork/xray-core/common/buf/multi_buffer.go:30-36 | the two contents one after the other |
| `MultiBuffers.MergeBytes` | fork/xray-core/common/buf/multi_buffer.go:39-54 | the bytes follow the content; new buffers are full but for the last |
| `MultiBuffers.Compact` | fork/xray-core/common/buf/multi_buffer.go:137-158 | same content, and no buffer would fit behind its neighbour any more |
| `BufferedReading.BufferedReader.Read` | fork/xray-core/common/buf/reader.go:61-86 | the next bytes of the stream, from the buffer first; none lost, none repeated |
| `BufferedReading.BufferedReader.ReadMultiBuffer` | fork/xray-core/common/buf/reader.go:89-97 | likewise, a whole list |
| `BufferedReading.BufferedReader.ReadAtMost` | fork/xray-core/common/buf/reader.go:100-115 | likewise, within a size |
| `BufferPool.Buffer.Extend` | fork/xray-core/common/buf/buffer.go:118-129 | the content grows by zeros whatever the array held |
| `BufferPool.Buffer.Write` | fork/xray-core/common/buf/buffer.go:238-245 | the content grows by as much as there is room for, and short exactly if the buffer is then full |
| `BufferPool.Buffer.Read` | fork/xray-core/common/buf/buffer.go:285-296 | bytes off the front; an emptied buffer starts over |
| `BufferPool.Buffer.Advance` | fork/xray-core/common/buf/buffer.go:195-201 | the front goes, negative indexes from the end, never past it; below minus the length the window grows back, to the array's start at most |
| `BufferPool.Buffer.Resize` | fork/xray-core/common/buf/buffer.go:175-192 | the window becomes the given range, backwards too, clamped at the array's start; what it gains behind its end reads as zero |
| `BufferPool.Pool.New` | fork/xray-core/common/buf/buffer.go:44-50 | an array no other live buffer has |
| `BufferPool.Pool.Release` | fork/xray-core/common/buf/buffer.go:80-94 | the array goes back once; a second release or a foreign array changes nothing |
| `NetAddress.IPAddress` | fork/xray-core/common/net/address.go:103-124 | an address of the right size, mapped ones as IPv4 |
| `MuxFrame.AddressRoundTrip` | fork/xray-core/common/protocol/address.go:162-247 | reading into a buffer that holds anything undoes writing, and takes nothing more, exactly for the readable addresses |
| `MuxFrame.LongestDomainIsRefused` | fork/xray-core/common/protocol/headers.go:70-72 | a 256-byte domain is written, with length 0, and then refused by the reader |
| `MuxFrame.EmptyDomainIsRefused` | fork/xray-core/common/protocol/address.go:189-206 | an empty domain is written and then refused: the text looked at is the scratch buffer |
| `MuxFrame.EmptyTargetIsRefused` | fork/xray-core/common/mux/frame.go:154-165 | a New frame to an empty domain is written and refused as a whole |
| `MuxFrame.AddressPortRoundTrip` | fork/xray-core/common/protocol/address.go:73-97 | port and address survive |
| `MuxFrame.InboundRoundTrip` | fork/xray-core/common/mux/frame.go:92-108 | source and local are recovered as selected |
| `MuxFrame.TailRoundTrip` | fork/xray-core/common/mux/frame.go:177-229 | what follows the target is read as inbound addresses or global identifier, as selected |
| `MuxFrame.Decode` | fork/xray-core/common/mux/frame.go:123-140 | a successful parse takes exactly the length field and the metadata, at most 512 bytes of it |
| `MuxFrame.FrameRoundTrip` | fork/xray-core/common/mux/frame.go:64-232 | decoding undoes encoding in front of any stream, exactly if the metadata is within 512 bytes |
| `MuxFrame.InboundIPsFit` | fork/xray-core/common/mux/frame.go:92-108 | with IPs as inbound addresses the metadata is at most 305 bytes and always understood |
| `MuxFrame.LongMetadataIsRefused` | fork/xray-core/common/mux/frame.go:128-131 | three domains of 250 bytes are written and the frame is refused |
| `MuxFrame.BodyBounded` | fork/xray-core/common/mux/frame.go:117-118 | the length field never wraps |
| `MuxFrame.WriteTo` | fork/xray-core/common/mux/frame.go:64-120 | the code that fills the buffer writes the reference encoding, or fails when that does |
| `MuxFrame.WriteInbound` | fork/xray-core/common/mux/frame.go:92-108 | likewise for the inbound addresses |
| `MuxReaders.ReadFull` | fork/xray-core/common/crypto/chunk.go:35-40 | exactly n bytes, or all there is and the kind of end |
| `MuxReaders.ChunkStreamReader.NextSize` | fork/xray-core/common/crypto/chunk.go:44-57 | the next size, unless enough chunks were read |
| `MuxReaders.ChunkStreamReader.ReadSome` | fork/xray-core/common/crypto/chunk.go:58-65 | a piece of the chunk; what is left over is counted |
| `MuxReaders.ChunkStreamReader.ReadMultiBuffer` | fork/xray-core/common/crypto/chunk.go:42-66 | the stream is consumed by exactly what is returned and the sizes read |
| `MuxReaders.CopyStreamPayload` | fork/xray-core/common/mux/reader.go:58-60 | copying one payload delivers exactly it, however it arrives |
| `MuxReaders.CopyPacketPayload` | fork/xray-core/common/mux/reader.go:30-55 | the whole packet or none, and an error for one too large |
| `MuxLink.TakesOneFrame` | fork/xray-core/common/mux/server.go:160-363 | a handler without an error has taken exactly one frame, unless the link ended inside its payload |
| `MuxLink.CutLinkIsHandled` | fork/xray-core/common/mux/server.go:302-326 | a link that ends two bytes into a payload of five is handled without an error |
| `MuxLink.PayloadArrives` | fork/xray-core/common/mux/writer.go:79-87 | a written payload is read back whole by both readers |
| `MuxLink.HeaderArrives` | fork/xray-core/common/mux/writer.go:44-89 | the writer's header is understood by the server |
| `MuxLink.OneFrame` | fork/xray-core/common/mux/server.go:266-363 | any acceptable frame is handled, has its effect and leaves the rest of the link |
| `MuxLink.EffectOutput` | fork/xray-core/common/mux/server.go:292-326 | a frame adds its payload to its own session's output and to no other |
| `MuxLink.LinkServed` | fork/xray-core/common/mux/server.go:338-384 | from any state on, a whole link is served |
| `MuxLink.Demultiplexed` | fork/xray-core/common/mux/writer.go:44-140 | every interleaving of any number of writers: each output gets exactly its writer's bytes in order, the open sessions are those without an End, nobody is told to end |
| `MuxObjects.Writer.constructor` | fork/xray-core/common/mux/writer.go:23-33 | the next frame opens the session |
| `MuxObjects.Writer.Emit` | fork/xray-core/common/mux/writer.go:44-96 | one frame of the reference form, New only the first time |
| `MuxObjects.Writer.NextChunk` | fork/xray-core/common/mux/writer.go:107-114 | at most one buffer of a stream, or exactly the next packet |
| `MuxObjects.Writer.WriteMultiBuffer` | fork/xray-core/common/mux/writer.go:99-121 | until a write fails, everything given is in the frames written, in order |
| `MuxObjects.Writer.WriteList` | fork/xray-core/common/mux/writer.go:99-121 | the payloads of one call's frames are the list's bytes in order; an empty list is a bare header |
| `MuxObjects.Writer.Close` | fork/xray-core/common/mux/writer.go:124-140 | one End frame, marked as an error if there was one |
| `MuxObjects.Unmarshal` | fork/xray-core/common/mux/frame.go:123-140 | reading from the connection is the reference decoding |
| `MuxObjects.UnmarshalFromBuffer` | fork/xray-core/common/mux/frame.go:144-232 | filling the fields one by one is the reference decoding |
| `MuxObjects.ServerWorker.HandleStatusNew` | fork/xray-core/common/mux/server.go:266-300 | the reference handler |
| `MuxObjects.ServerWorker.HandleStatusKeep` | fork/xray-core/common/mux/server.go:302-326 | the reference handler; an unknown session is told to end and its payload discarded |
| `MuxObjects.ServerWorker.HandleStatusEnd` | fork/xray-core/common/mux/server.go:328-336 | the reference handler |
| `MuxObjects.ServerWorker.HandleFrame` | fork/xray-core/common/mux/server.go:338-363 | one turn of the reference server on state and stream |
| `MuxObjects.ServerWorker.Run` | fork/xray-core/common/mux/server.go:365-384 | the loop serves the whole link as the reference does |
| `MuxEnds.GoodOp` | fork/xray-core/common/mux/writer.go:44-96 | every frame of a session with a readable target is acceptable to the other end |
| `MuxEnds.MergedLink` | fork/xray-core/common/mux/writer.go:71-89 | any merge of the writers' frames is the link of an interleaving with each writer's payload |
| `MuxEnds.LanesArrive` | fork/xray-core/common/mux/server.go:338-384 | served to its end, the link gives every output its writer's payload |
| `MuxEnds.ServeWriters` | fork/xray-core/common/mux/server.go:365-384 | any number of writer objects, any interleaving, any pieces: the server's loop hands every output exactly what its writer was given |
| `MuxSessions.EveryRun` | fork/xray-core/common/mux/session.go:53-204 | over every run: identifiers 1, 2, 3 and so on, live sessions are those allocated and not closed, within the limit, each torn down at most once |
| `MuxSessions.IdleCloseIsSafe` | fork/xray-core/common/mux/session.go:121-137 | an idle close finds nothing live and nothing allocated since the count was sampled |
| `MuxSessions.ReusedWithoutLimit` | fork/xray-core/common/mux/session.go:57-64 | with a limit whose low 16 bits are zero there is a run that hands out identifier 1 twice |
| `MuxSessions.SessionManager.Allocate` | fork/xray-core/common/mux/session.go:53-74 | the reference allocation, or none beyond the limits |
| `MuxSessions.SessionManager.CloseSession` | fork/xray-core/common/mux/session.go:171-204 | tears down once and leaves the table |
| `MuxSessions.SessionManager.CloseIfNoSessionAndIdle` | fork/xray-core/common/mux/session.go:121-137 | the reference idle close |
| `MuxSessions.SessionManager.Close` | fork/xray-core/common/mux/session.go:139-155 | every live session is torn down once more, the others not |
| `HappyEyeballs.NeverPanics` | fork/xray-core/transport/internet/happy_eyeballs.go:82-94 | the panic is unreachable and no more tries run than allowed |
| `HappyEyeballs.KeepsTimed` | fork/xray-core/transport/internet/happy_eyeballs.go:35-96 | an armed timer may fire, and waiting has a timer or an active try, after every step |
| `HappyEyeballs.NeverStuck` | fork/xray-core/transport/internet/happy_eyeballs.go:35-96 | until it returns the race can always go on by itself |
| `HappyEyeballs.ReturnClosesTheRest` | fork/xray-core/transport/internet/happy_eyeballs.go:37-80 | on return every connection opened is closed but the one returned; failure only after every address failed |
| `HappyEyeballs.AlwaysReturns` | fork/xray-core/transport/internet/happy_eyeballs.go:16-97 | whatever the order of events, a bounded number of steps |
| `HappyEyeballs.KeepsOwned` | fork/xray-core/transport/internet/happy_eyeballs.go:158-175 | every open connection has exactly one owner who will close or return it |
| `HappyEyeballsLoop.RaceLoop.OnTimer` | fork/xray-core/transport/internet/happy_eyeballs.go:82-94 | the timer case is the reference step |
| `HappyEyeballsLoop.RaceLoop.OnResult` | fork/xray-core/transport/internet/happy_eyeballs.go:37-80 | the result case is the reference step |
| `HappyEyeballsLoop.RaceLoop.CloseAll` | fork/xray-core/transport/internet/happy_eyeballs.go:40-52 | after a cancellation everything received is closed |
| `HappyEyeballsLoop.RaceLoop.Decide` | fork/xray-core/transport/internet/happy_eyeballs.go:53-80 | win, close the loser, try on, fail or wait |
| `HappyEyeballsLoop.RaceLoop.Elsewhere` | fork/xray-core/transport/internet/happy_eyeballs.go:158-175 | a goroutine's step is the reference step |
| `HappyEyeballsLoop.RaceLoop.TcpRaceDial` | fork/xray-core/transport/internet/happy_eyeballs.go:16-97 | the loop ends under every order of events, with at most the returned connection open |
| `HappyEyeballsLoop.TurnsInRuns` | fork/xray-core/transport/internet/happy_eyeballs.go:127-153 | whole runs of one family, then the other's |
| `HappyEyeballsLoop.TurnsKeepOrder` | fork/xray-core/transport/internet/happy_eyeballs.go:127-153 | both families whole and in their own order |
| `HappyEyeballsLoop.Split` | fork/xray-core/transport/internet/happy_eyeballs.go:104-113 | each family, unmapped, in order |
| `HappyEyeballsLoop.Interleave` | fork/xray-core/transport/internet/happy_eyeballs.go:119-155 | the loop takes turns as specified |
| `HappyEyeballsLoop.SortIPs` | fork/xray-core/transport/internet/happy_eyeballs.go:100-156 | nothing lost or added, families in order, the preferred one first; one family alone is left as it is |
| `TlsFragment.ReaderSees` | fork/xray-core/proxy/freedom/freedom.go:635-658 | a TLS reader finds the fragments one by one, all of the original type and version |
| `TlsFragment.FillRecord` | fork/xray-core/proxy/freedom/freedom.go:641-649 | the reused buffer holds one well-formed record |
| `TlsFragment.FragmentWriter.SendPart` | fork/xray-core/proxy/freedom/freedom.go:650-658 | a record is sent or collected |
| `TlsFragment.FragmentWriter.SendHello` | fork/xray-core/proxy/freedom/freedom.go:630-665 | for all lengths drawn the parts make up the payload, none empty, at most maxSplit; a failure leaves whole records of a front |
| `TlsFragment.FragmentWriter.SendPlain` | fork/xray-core/proxy/freedom/freedom.go:680-697 | plain splitting sends the bytes in order, a failure leaves a front of them |
| `TlsFragment.FragmentWriter.Write` | fork/xray-core/proxy/freedom/freedom.go:619-698 | a whole first handshake record leaves as records with the same message, then the untouched rest; every other write byte for byte; a failure leaves a front of that, and the result says how much |

## Left out

- Sockets, dialing, listeners, splice and readv, socket options, time-outs as durations: only their effect on the modelled state.
- The inside of AES, ChaCha20, BLAKE3, X25519, ML-KEM and TLS: only the laws in `EncryptionSuite`.
- Write errors of the connection underneath `VisionWriter`, `CommonConn` and `XorConn`, and of session outputs.
- Log output, statistics counters, configuration building, policies.
- The packet-session protocol of the mux (global identifiers): a frame that carries one is a separate outcome of `MuxLink.HandleFrame`.
- The packet addresses a mux server attaches to buffers: only payload bytes are modelled.
- MuxObjects.ServerWorker.HandleStatusNew: the dispatcher accepts every target and every network is allowed; where the code refuses one it ends the whole connection. The reply direction is not modelled.
- MuxObjects.ServerWorker.HandleStatusKeep: outputs accept what they are given; after a failing write the code closes the session and discards the payload.
- BufferedReading.BufferedReader.Read: the reader underneath never returns data together with an error, as a pipe does not; the code would drop those data.
- BufferedReading.BufferedReader.ReadAtMost: likewise; here the code would drop the error.
- VisionTraffic.TrafficState.XtlsFilterTls: takes the two cipher bytes to lie in the buffer's array, where they may be stale; `VisionTraffic.CipherAlwaysInArray` says when they do, and otherwise the code panics.
- VisionWriter.WriterReachesReader: speaks of the unpadding calls; `VisionEnds` speaks of the reader.
- `BufferedWriter`, `TimeoutWrapperReader`, the QUIC sniffer, the JSON reader, user validation, UUID text.
- Aliasing in lists of buffers: `MultiBuffers` works on values, so entries set to nil and arrays shared with the pool do not appear there; `BufferPool` models one buffer and the pool with real arrays, and `VisionReader` the list compacted in place.
- 32-bit widths of lengths and counters that stay small by their bounds; where a width matters (nonces, 16-bit lengths and identifiers, the 64-bit padding sum) it is explicit.
- The text form of the padding setting, and the gaps between fragments.
- EncryptionHandshake.ClientAccepts: the client ignores the error of its first Open; the model ends the handshake there, where the code goes on with the bytes it has and fails at a later step.
- EncryptionTickets.TicketStore.Issue: takes tickets as fresh and not all zero, which the code leaves to chance.
- EncryptionTickets.TicketStore.MakeTicket: takes the random bytes as fresh, for the same reason.
- Stale cipher bytes left in pooled output buffers between records.
- PipeObjects.PipeQueue.ReadMultiBufferTimeout: one call is its last look; the waiting in between is in the state machine of `Pipe`.
- The pipe's byte counts are modelled without the buffers that carry them, and one reader at a time is assumed.
- HappyEyeballs.NeverPanics: assumes, as the timer of current Go versions guarantees, that Stop and Reset leave no stale tick; at least two addresses and a positive maximum are what the only caller passes.
- TlsFragment.FragmentWriter.Write: takes the lengths drawn as at least 1; with a configured minimum of 0 the code may loop for as long as it draws 0.
- VisionWriter.VisionWriter.WriteMultiBuffer: takes test seeds with positive small values and a long-padding floor of at least the threshold, which the default has; buffers of at most one pooled buffer's size.
- The client's expiry of a ticket after a rejected 0-RTT, and the server's noise for an expired one.
