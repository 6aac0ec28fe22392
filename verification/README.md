# miniproxygo: a model of the data path, with proofs

miniproxygo is a SOCKS5 proxy in two halves. A local server negotiates with a client and forwards
the address and the client's bytes through a corked, encrypted connection; a remote server recovers
both. In between lies a stack of stateful byte-stream transformers, each of which is meant to be
invisible to the layer above, whatever the chunking, the buffer sizes and the interleaving. This
project models those transformers step by step and proves that they are.

| file | models |
|---|---|
| `bytes.dfy`, `io.dfy` | byte strings, errors, and the outside world: sources and sinks that do all that Go's io.Reader and io.Writer allow |
| `nonce.dfy`, `aead.dfy`, `records.dfy` | the counter nonce, authenticated encryption by its laws (RFC 5116, sections 2.1 and 2.2), the record format |
| `record_writer.dfy`, `record_reader.dfy`, `shadow_conn.dfy` | the two sides of an encrypted stream and the connection with its salts |
| `bloomring.dfy`, `packet.dfy` | the salt filter and encrypted packets |
| `bufio_reader.dfy`, `bufio_writer.dfy` | buffered input and output |
| `cork.dfy` | the corked connection |
| `read_end.dfy`, `socks5.dfy`, `addr_text.dfy` | SOCKS5 addresses, their two parsers, the negotiation (RFC 1928, sections 3 to 6), and the text form of addresses |
| `stream_run.dfy`, `end_to_end.dfy` | whole runs of an encrypted stream, and the proxy end to end |

Objects of the program are classes here, with the program's fields and methods, and every method is
proved against a plain description of the stream it works on: the bytes pending before a buffered
reader, the bytes a writer has accepted, the plaintext ahead of a decrypting reader, the history of
a ring. Longer methods are cut into smaller ones at the places where the source has a comment or a
branch. Results that exist only for the proof are `ghost`; a `got` is what a call took off its source. Runs of
calls return what the calls returned, and a `Log` that says how each call went.

The outside world is left as open as its contracts leave it. A source delivers chunks of any size,
may put its last bytes and its error into one answer, may use the rest of the caller's slice as
scratch, and may answer nothing at all, without an error, a finite number of times. A sink may stop
after any prefix, with or without an error. Its `strict` and `reliable` flags say that it keeps
io.Writer's rule about short writes and that it never fails; a `prompt` source reports its end along
with its last bytes and a `late` one only after them, an `eager` one fills every read, a `broken`
sink takes nothing, and a `mute` one reports no error however little it takes. The AEAD and the key
derivation are function values that satisfy the laws; two instances show that the laws can be met.
The ideal form, in which nothing opens but what was sealed, is used for the integrity theorems only.
The cork's timer may go off before any write, or after the last one; both sides run under one lock,
so an interleaving is a sequence of whole steps.

## Where code and documentation differ

The model follows the code. Each point names an input and the exact condition.

- `Reader.Read` (m_bufio/bufio.go:145-170): "at EOF, the count will be zero" fails on the direct path for
  large slices, for a source that reports its end along with its last bytes, and only there
  (`BufioReader.BytesWithEOF`, `BufioReader.Reader.Read`).
- `TotalRead` (m_bufio/bufio.go:34) is not the number of bytes read after `ReadSlice` (329-336), which misses
  what was buffered before the last refill, nor after `ReadLine` (372), which also counts a "\r" that it puts
  back (`BufioReader.CounterGoesWrong`; exactly when: `BufioReader.SliceCounted`, `BufioReader.LineCounted`;
  by how much over any run: `BufioReader.Conserves`).
- `UnreadByte` (m_bufio/bufio.go:216): what it puts back need not be the byte read last, because `ReadSlice` does
  not note it (`BufioReader.UnreadStale`; exactly when: `BufioReader.UnreadAfterSlice`).
- `Writer` (m_bufio/bufio.go:504-509): after an error more data is accepted, by `ReadFrom` (690-732) if and only
  if there is room in the buffer (`BufioWriter.AcceptedAfterError`), and by no other call
  (`BufioWriter.NothingAfterError`).
- `TotalWrite` (m_bufio/bufio.go:516): `ReadFrom` leaves it alone when the flush in its loop fails (701-703), on a
  writer with an earlier error (`BufioWriter.CounterStays`) or without one (`BufioWriter.NothingCounted`). It is
  right when the source fits in the buffer and when no flush can fail; where no flush can go through, only then
  (`BufioWriter.CountsWhenItFits`).
- The salt filter is said to detect repeated salts, but `CheckSalt` (m_internal/saltfilter.go:83-85) only tests.
  A replay of what another process sent is accepted (`EndToEnd.ServeReplayed`, `Packet.ReplayedPacket`); what is
  refused is exactly what this process has sent lately (`ShadowConn.RefusedExactly`, `Packet.PacketRefused`).
- Domain names that contain a colon survive the text form, since they are put in brackets; the exact
  condition is in `AddrText.DomainRoundTrip`.
- `HandShake` looks at neither the versions, the reserved byte nor the offered methods
  (`Socks5.NegotiateConnect`, `Socks5.NegotiateOnlyConnect`).
- A stream cut directly behind a length block ends in EOF, like a complete one (`Records.Truncated`).

## Model

| member | source | states |
|---|---|---|
| `StreamRun.StreamRoundTrip` | m_shadow/stream.go:46-186 | Any sequence of `Write` and `ReadFrom` calls, the sources of the latter ending in any error, through a cork and its timer or without, followed by `Read` calls of any sizes (0 included) and a `WriteTo`, delivers exactly the bytes written, for every chunking. |
| `StreamRun.Transmit` | m_shadow/stream.go:38-79 | What such writes put on a fresh connection is the record format of payloads of 1 to 0x3FFF bytes whose concatenation is what was written, and decodes to just that. |
| `StreamRun.ReceiveAll` | m_shadow/stream.go:135-186 | Reads of any sizes and a final `WriteTo` deliver everything that lies ahead of the first error, each byte once. |
| `StreamRun.ReceiveAnything` | m_shadow/stream.go:102-186 | Under an ideal AEAD and fewer than 256^nonceSize seals, any wire bytes read by any calls deliver the payloads of the first few records that were written, and nothing else. |
| `StreamRun.ReceiveCut` | m_shadow/stream.go:102-186 | An honest stream cut at any byte delivers, for any calls, exactly the payloads of the records wholly before the cut. |
| `StreamRun.Lockstep` | m_shadow/stream.go:101-132 | After k whole records of an honest stream the reader's nonce is the writer's after k records, and what is left to read is what the writer went on with. |
| `StreamRun.NonceDiscipline` | m_shadow/stream.go:56-68 | At any point of a writer's life, failed writes included, record k was sealed under the nonces 2k (length) and 2k+1 (payload), no nonce comes twice within 256^nonceSize seals, and the current nonce is the number of seals made. |
| `Records.RoundTrip` | m_shadow/stream.go:102-132 | Decoding what was written gives exactly the payloads and then the stream's own end, for every AEAD with the round-trip law. |
| `Records.HeaderBytes` | m_shadow/stream.go:56 | The length block is big-endian, and a reader takes its low 14 bits only. |
| `Records.FirstRecord` | m_shadow/stream.go:56-61 | The first record byte for byte: two length bytes, the high one first, sealed under the nonce of all zeros, then the payload sealed under the nonce one. |
| `Records.Delivered` | m_shadow/stream.go:101-132 | The same for every AEAD that opens just the seals of this stream, which an ideal one can do. |
| `Records.DecodeWire` | m_shadow/stream.go:101-132 | Records are self-delimiting: decoding them with anything behind gives the payloads and goes on behind them under the nonce the writer has reached. |
| `Records.Truncated` | m_shadow/stream.go:101-132 | A cut anywhere delivers exactly the whole records before it. After an end in EOF the error is EOF if and only if the cut is between records or directly behind a length block, and an unexpected EOF otherwise; any other end is the error itself. |
| `Records.WholeBeforeIs` | m_shadow/stream.go:101-132 | The number of records wholly before a cut is the one whose end is at or before the cut while the next record ends behind it. |
| `Records.Integrity` | m_shadow/stream.go:101-132 | Under an ideal AEAD and fewer than 256^nonceSize seals, whatever bytes arrive decode to the payloads of the first j records for some j, although lengths and payloads share one nonce sequence. |
| `Records.IdealDelivers` | m_shadow/stream.go:101-132 | Under an AEAD that opens the seals of a stream and nothing else, the untouched stream is delivered whole, and one cut anywhere up to its last whole record. So the AEADs of `Integrity` are not those that open nothing. |
| `Records.ReplayAfterWrap` | m_shadow/stream.go:188-196 | The bound of `Integrity` is tight: with exactly 256^nonceSize seals there is an ideal AEAD, which opens those seals and nothing else, under which the doubled wire stream delivers everything twice. |
| `Records.NonceAfterAt` | m_shadow/stream.go:57-61 | k records move the nonce on by exactly 2k counts. |
| `Records.SealsAt` | m_shadow/stream.go:56-61 | Record k contributes the seal of its length block under nonce 2k and of its payload under nonce 2k+1. |
| `Nonce.Increment` | m_shadow/stream.go:189-196 | In place, with the early return, it is the carry chain `Inc`. |
| `Nonce.IncValue` | m_shadow/stream.go:188-196 | `Inc` is +1 modulo 256^len on the little-endian value. |
| `Nonce.ValueAt` | m_shadow/stream.go:188-196 | Below 256^size the k-th nonce has the value k. |
| `Nonce.Distinct` | m_shadow/stream.go:188-196 | No nonce comes twice within 256^size uses. |
| `Nonce.Wraps` | m_shadow/stream.go:188-196 | After 256^size uses the nonces start over. |
| `Aead.NonceTagLawful` | m_shadow/cipher.go:18-23 | There is an AEAD that satisfies the laws assumed of every cipher. |
| `Aead.IdeallyIdeal` | m_shadow/cipher.go:18-23 | For any log of seals there is an AEAD that opens all of them and nothing else. |
| `Aead.RoundTripsNotIdeal` | m_shadow/cipher.go:18-23 | The round-trip law and the ideal form exclude each other, which is why the integrity theorems and their tightness are stated with logs. |
| `Aead.SealInPlace` | m_shadow/stream.go:57 | Sealing over its own plaintext puts ciphertext and tag there and leaves the rest of the buffer alone. |
| `Aead.OpenInPlace` | m_shadow/stream.go:110 | Opening over its own ciphertext gives what the AEAD opens; when it fails, the window and what lies behind may be garbage. |
| `RecordWriter.Writer.SealRecord` | m_shadow/stream.go:54-61 | Sealing both blocks where they are, the second behind the first, gives exactly one record of the wire format under two successive nonces, and logs both seals. |
| `RecordWriter.Writer.SendRecord` | m_shadow/stream.go:53-68 | One record more; the nonces move on also when its write fails; what the connection has accepted is all the records, or, when this write fails, their front. |
| `RecordWriter.Writer.Relay` | m_shadow/stream.go:49-68 | One read of up to 0x3FFF bytes, and one record of just what it brought, if anything. |
| `RecordWriter.Writer.ReadFrom` | m_shadow/stream.go:46-79 | Every byte read from the source goes into a record, in order, up to the end of the source or the first failed write; EOF is not an error. A source that fills every read makes records of 0x3FFF bytes, but for the last. On a connection that keeps io.Writer's rule, whatever fails, what it has accepted is the front of the records made. |
| `RecordWriter.Writer.Write` | m_shadow/stream.go:38-41 | A prefix of b goes into records, all of it without an error, in records of 0x3FFF bytes but for the last. |
| `RecordWriter.OneRecord` | m_shadow/stream.go:38-79 | So a write of up to 0x3FFF bytes is one record. |
| `RecordReader.Reader.OpenBlock` | m_shadow/stream.go:103-114 | Reads exactly n bytes, opens them in place under the nonce and moves the nonce on also when the opening fails. |
| `RecordReader.Reader.ReadNext` | m_shadow/stream.go:101-132 | Overwrites the buffer, which may hold nothing undelivered, with exactly the next record of the stream, or reports the error that the format calls for. |
| `RecordReader.Reader.ReadLeftover` | m_shadow/stream.go:136-141 | The undelivered tail of the last record, which lies in the decryption buffer, is served first and in order. |
| `RecordReader.Reader.Read` | m_shadow/stream.go:135-149 | What was ahead is what was returned followed by what is ahead now. A read stops short of its slice only where nothing of a record is left over. An error comes only when nothing is ahead, and is the stream's; a read that fills nothing of a nonempty slice without an error has still taken a record off the wire. |
| `RecordReader.Reader.WriteLeftover` | m_shadow/stream.go:155-163 | Nothing of the leftover is lost or repeated, also when the sink takes it in pieces or fails. |
| `RecordReader.Reader.WriteTo` | m_shadow/stream.go:154-186 | An error-free sink gets exactly everything ahead of the first error, and EOF is not reported. On any sink that keeps io.Writer's rule, what was ahead is what the sink got, then a lost piece of at most one record, lost only with an error, then what is still ahead. |
| `ShadowConn.StreamConn.InitReader` | m_shadow/stream.go:205-221 | A short salt, one without a key and one the filter takes for seen are refused in this order and for no other reason; otherwise what comes in is what it was before the salt was read. |
| `ShadowConn.StreamConn.Read` | m_shadow/stream.go:223-230 | Starts on demand; the plaintext that comes in is what was returned followed by what is still to come. |
| `ShadowConn.StreamConn.WriteTo` | m_shadow/stream.go:232-239 | An error-free sink gets all the plaintext of the stream; the error is the stream's, with EOF passed over unless the salt itself failed. |
| `ShadowConn.StreamConn.InitWriter` | m_shadow/stream.go:241-257 | Sends a fresh salt, remembers it in the filter, and starts with no records behind it. |
| `ShadowConn.StreamConn.Write` | m_shadow/stream.go:259-266 | Starts on demand; the plaintext sent grows by the accepted prefix of b. From the start on, whatever fails, what the connection has accepted is the front of the salt and the records made. |
| `ShadowConn.StreamConn.ReadFrom` | m_shadow/stream.go:268-275 | Starts on demand; the plaintext sent grows by exactly what was taken from the source; on an error-free connection that is all of it, and the error is the source's, EOF passed over. From the start on, whatever fails, what the connection has accepted is the front of the salt and the records made. |
| `ShadowConn.StreamConn.OnTheWire` | m_shadow/stream.go:241-275 | As long as nothing has failed the connection has accepted what was there before, the salt, and the records of all plaintext sent. |
| `ShadowConn.RefusedExactly` | m_internal/saltfilter.go:73-85 | With exact slots, and a salt that has a key, a stream is refused if and only if its salt is among the last ones this process has sent; receiving leaves that history as it was. |
| `Cork.CorkedConn.Write` | m_server/socks_server.go:83-101 | The bytes on the connection followed by those held back grow by the accepted prefix. Before the timer, what fits in the buffer is accepted whole and none of it reaches the connection; after the timer nothing is held back; after a failed flush nothing is accepted. |
| `Cork.CorkedConn.Timer` | m_server/socks_server.go:91-96 | Flushes once without losing or reordering a byte and uncorks for good. |
| `Cork.Run` | m_server/socks_server.go:64-101 | Every interleaving of writes and the timer goes, step by step, as the corked connection may (`Allowed`); by what the writes report, connection and held-back bytes are the accepted bytes in order, on any connection. |
| `Cork.Conserves` | m_server/socks_server.go:64-101 | Any such run keeps every accepted byte, once and in order. |
| `Cork.HeldBack` | m_server/socks_server.go:83-101 | Over any run, until the timer goes off, nothing reaches the connection as long as all that was written fits in the buffer, and every write is accepted whole. |
| `Cork.AfterTimer` | m_server/socks_server.go:91-101 | At every later point of a run: once the timer's flush went through nothing is held back; once it failed no write accepts anything, and each returns that error. |
| `EndToEnd.HeldUntilTimer` | m_server/socks_server.go:180-221 | The servers' cork holds back up to 1280 bytes until the timer, and writes alone do not make it go off. |
| `BufioReader.Reader.Fill` | m_bufio/bufio.go:85-108 | Slides and refills without changing what is pending. |
| `BufioReader.Reader.Peek` | m_bufio/bufio.go:121-143 | Returns exactly the next n pending bytes without taking them; fewer only with the source's error, for a negative n or an n larger than the buffer. |
| `BufioReader.Reader.Read` | m_bufio/bufio.go:150-195 | Takes the front of what is pending: as much of what is buffered as fits, or else as much as one read of the source brings, of which there is none when something is buffered. Bytes come with an error only on the direct path into a slice at least as large as the buffer, and there if the source reports its end with its last bytes. |
| `BufioReader.BytesWithEOF` | m_bufio/bufio.go:145-170 | An input for which the count at EOF is not zero. |
| `BufioReader.Reader.ReadByte` | m_bufio/bufio.go:199-214 | Takes one byte, or reports the source's error exactly when nothing is pending. |
| `BufioReader.Reader.UnreadByte` | m_bufio/bufio.go:217-242 | Puts back the last byte read, also into an empty buffer; fails exactly when there is none. |
| `BufioReader.Reader.ReadSlice` | m_bufio/bufio.go:303-346 | Succeeds exactly with a slice that ends at its first delimiter; otherwise the slice has none and is the whole full buffer or everything to the source's error. The counter misses exactly what was buffered before the last refill. |
| `BufioReader.Reader.PutBackCR` | m_bufio/bufio.go:363-375 | A "\r" at the end of a full buffer, and nothing else, is pending again; the fragment makes progress all the same. |
| `BufioReader.Reader.ReadLine` | m_bufio/bufio.go:361-394 | Returns a fragment with no line feed; a last fragment comes with the line end that was dropped, an error comes with nothing. The counter misses what `ReadSlice` misses and counts a "\r" that was put back. |
| `BufioReader.Reader.ReadBytes` | m_bufio/bufio.go:403-442 | Returns the pending stream up to and including the first delimiter, or all of it with the source's error if there is none, whatever the buffer size and chunking. The counter misses what the last `ReadSlice` misses. |
| `BufioReader.Reader.WriteTo` | m_bufio/bufio.go:458-500 | What the sink gets followed by what is pending is unchanged at every exit; an error-free sink gets all of a source that never stalls. |
| `BufioReader.Reassembled` | m_bufio/bufio.go:348-394 | Fragments that respect the put-back rule make up exactly one line, also when "\r\n" straddles two of them. |
| `BufioReader.LineEndings` | m_bufio/bufio.go:386-392 | A line end is byte 10, with a byte 13 in front of it or not; just that goes. |
| `BufioReader.ReadLogicalLine` | m_bufio/bufio.go:348-394 | Calling `ReadLine` until isPrefix is false gives the next logical line without its line end, and takes exactly that line, for every buffer size of at least 16 and every chunking; the loop ends. |
| `BufioReader.Run` | m_bufio/bufio.go:85-500 | Any run of calls is, answer by answer, a run of the reader without buffer and chunks (`Obeys`). What the answers took, less a byte for every `UnreadByte` that was made, then what is pending, is the original stream; the counter is the net bytes less what each answer makes it miss; the sink got what the `WriteTo` calls took. |
| `BufioReader.Conserves` | m_bufio/bufio.go:85-500 | For any such run: conservation of the stream, and the exact counter. |
| `BufioReader.SliceCounted` | m_bufio/bufio.go:303-346 | When `ReadSlice` counts right. With something buffered: if and only if the delimiter is among that, or not within reach of the buffer. |
| `BufioReader.LineCounted` | m_bufio/bufio.go:361-394 | When `ReadLine` counts right, too little, or one too much, from what is buffered and pending before the call. |
| `BufioReader.CounterGoesWrong` | m_bufio/bufio.go:303-394 | An input: 15 bytes and "\r\n" with a buffer of 16 are counted as 16 and 1 bytes instead of 15 and 2. |
| `BufioReader.UnreadAfterSlice` | m_bufio/bufio.go:216-242 | After a `ReadSlice`, `UnreadByte` puts back the last byte read if and only if something is still buffered, no byte is noted from before, or the noted one is the same. |
| `BufioReader.UnreadStale` | m_bufio/bufio.go:216-242 | An input: of "ab\n", read as "a" and "b\n", `UnreadByte` puts back "a". |
| `BufioWriter.Writer.Flush` | m_bufio/bufio.go:558-579 | Sink followed by buffer is unchanged, also after a partial write; without an error the buffer is empty, and an error is sticky; a short write that came without an error is reported as one. |
| `BufioWriter.Writer.Write` | m_bufio/bufio.go:591-617 | Accepts exactly a prefix, all of it unless it returns an error, and nothing after an earlier error; what fits stays in the buffer and nothing goes to the sink; otherwise what is left in the buffer is what comes behind one full buffer, or nothing when that is more than a buffer. The loop ends also where a full buffer copies nothing. |
| `BufioWriter.Writer.WriteString` | m_bufio/bufio.go:669-687 | The same, but only whole buffers go, each when more is to come. |
| `BufioWriter.Writer.WriteByte` | m_bufio/bufio.go:620-631 | Accepts the byte, or changes nothing but the error; only a full buffer is flushed, and before the byte. |
| `BufioWriter.Writer.ReadFrom` | m_bufio/bufio.go:698-731 | Accepts exactly what it takes from the source. On a sink that does not fail it drains a source that does not stall, counts right and returns the source's error. On any writer it counts right when the source fits; after an error it takes what there is room for, with the error and the counter that `StuckRead` says; when bytes are left over the counter is unchanged. |
| `BufioWriter.Run` | m_bufio/bufio.go:558-732 | Every run of calls, on any sink, goes call by call as the writer may (`Allowed`): by the counts and errors the calls report, sink followed by buffer is the concatenation of the accepted prefixes. The counter is their length without `ReadFrom`, and with it on a sink that does not fail. |
| `BufioWriter.Conserves` | m_bufio/bufio.go:558-732 | Any such run keeps every accepted byte, once and in order. |
| `BufioWriter.NothingEarly` | m_bufio/bufio.go:552-631 | Over any run without `Flush`, nothing goes to the sink as long as all that was offered fits in the buffer. |
| `BufioWriter.NothingAfterError` | m_bufio/bufio.go:504-509 | At every later point of a run after an error, every call but `ReadFrom` accepts nothing and returns that error, and the sink gets nothing more. |
| `BufioWriter.AcceptedAfterError` | m_bufio/bufio.go:504-509 | After an error `ReadFrom` accepts bytes of a source that does not stall if and only if there is room in the buffer. With room, it counts them right if and only if they all fit; bytes that just fill the room count as fitting if the source reports its end with the last of them, and not if it reports it later. |
| `BufioWriter.CountsWhenItFits` | m_bufio/bufio.go:698-731 | When `ReadFrom` counts right: always if no flush can fail, or if the source fits; where no flush can go through, with or without an earlier error, if and only if the source fits (a source that just fills the room: as above) or there is no room at all. |
| `BufioWriter.NothingCounted` | m_bufio/bufio.go:698-731 | An input: a writer without an error, on a sink that takes nothing, accepts two of three bytes and counts none. |
| `BufioWriter.CounterStays` | m_bufio/bufio.go:698-731 | An input: after a failed flush two of three bytes are accepted and the counter stays where it was. |
| `BufioWriter.SameAsBytewise` | m_bufio/bufio.go:591-687 | On a sink that does not fail, any run of writes leaves the same bytes as the same data fed one byte at a time, also after a flush. |
| `BloomRing.BloomRing.Add` | m_internal/bloomring.go:54-65 | One more addition; the slots keep holding the blocks of the window, also over a rotation. |
| `BloomRing.BloomRing.Window` | m_internal/bloomring.go:54-84 | Every item among the last (slotCount-1)*(slotCapacity+1)+entryCounter additions tests positive; with exact slots an item does if and only if it is in that window. |
| `BloomRing.BloomRing.Test` | m_internal/bloomring.go:77-84 | The loop over the slots answers as `Window` says. |
| `BloomRing.BloomRing.constructor` | m_internal/bloomring.go:32-43 | An empty ring of the given number of slots for capacity/slot entries each. |
| `BloomRing.WindowIs` | m_internal/bloomring.go:54-65 | The blocks in the ring are the last so many items of the history, or all of it. |
| `BloomRing.CheckSalt` | m_internal/saltfilter.go:83-85 | Only tests; a ring that is switched off answers no. |
| `BloomRing.AddSalt` | m_internal/saltfilter.go:79-81 | The salt is known from then on; a ring that is switched off does nothing. |
| `Socks5.SplitEncoded` | m_socks/socks5.go:246-272 | The front of an encoded destination and anything behind it is that encoding. |
| `Socks5.SplitDecodes` | m_socks/socks5.go:246-272 | What is accepted is exactly the encodings of well-formed destinations. |
| `Socks5.PrefixFree` | m_socks/socks5.go:246-272 | No valid encoding is the beginning of another. |
| `Socks5.AddrBytes` | m_socks/socks5.go:252-271 | Types 1, 3 and 4 with 4, counted and 16 bytes and a port of 2 are addresses, in front of anything. |
| `Socks5.NoAddrBytes` | m_socks/socks5.go:246-272 | No other type is an address, and none is that is cut short. |
| `Socks5.ReadAddrInto` | m_socks/socks5.go:212-238 | Succeeds if and only if `SplitAddr` accepts what comes in, returns the same bytes and takes exactly those, at any fragmentation, from a plain or an encrypted connection; otherwise it reports the error of the part that is missing; a short buffer is refused before anything is read. |
| `Socks5.ReadAddr` | m_socks/socks5.go:240-243 | The same with a buffer that is always long enough. |
| `Socks5.HandShake` | m_socks/socks5.go:274-321 | On any client stream, under any fragmentation, it takes, answers and returns what `Negotiate` says, or the error of the part that is missing, in one reused buffer of 259 bytes. Where replies can fail, no error still means that the CONNECT was taken whole and, on a sink that keeps io.Writer's rule, that both replies were sent. |
| `Socks5.NegotiateBytes` | m_socks/socks5.go:274-321 | The negotiation byte by byte, for any methods and address: command 1 is agreed to and answered 5 0 and 5 0 0 1 0 0 0 0 0 0, command 3 where UDP is enabled with the server's address, every other command is refused behind 5 0. |
| `Socks5.ConnectBytes` | m_socks/socks5.go:274-321 | CONNECT to an address of each type, byte by byte. |
| `Socks5.RefusedBytes` | m_socks/socks5.go:302-318 | A command nobody serves and an address type nobody knows are refused with their own errors. |
| `Socks5.NegotiateConnect` | m_socks/socks5.go:274-321 | A well-formed CONNECT followed by anything: exactly 2+nmethods+3+address length bytes are taken, both replies are sent, the address comes back verbatim. |
| `Socks5.NegotiateOnlyConnect` | m_socks/socks5.go:274-321 | Every stream agreed to as CONNECT has that form. |
| `Socks5.AgreedAddr` | m_socks/socks5.go:298-320 | What is agreed on is a well-formed address, which the other parser recovers from what the server forwards. |
| `AddrText.ParseAddr` | m_socks/socks5.go:176-210 | The bytes filled into the fresh slice are the encoding of the destination that host and port mean; nil in exactly the cases of the source. |
| `AddrText.IPv4Text` | m_socks/socks5.go:157-173 | The text of an IPv4 address character by character: four decimal numbers without leading zeros between dots, a colon, and the port as 256 times its first byte plus its second. |
| `AddrText.HostPortText` | m_socks/socks5.go:157-173 | A domain, or the text of an IPv6 address, stands as it is, in brackets if there is a colon in it, in front of colon and port. |
| `AddrText.IPv4RoundTrip` | m_socks/socks5.go:157-210 | Text form and back is the identity for every IPv4 address and port. |
| `AddrText.DomainRoundTrip` | m_socks/socks5.go:157-210 | For a domain it is the identity if and only if the name has no bracket in it and is not the text of an IP address (colons do no harm). |
| `AddrText.ParsedIsValid` | m_socks/socks5.go:176-210 | Whatever is parsed is an encoding that `SplitAddr` accepts whole. |
| `AddrText.SplitJoined` | m_socks/socks5.go:172-178 | Host and port come back from their joined form exactly if the host has no brackets. |
| `AddrText.SplitForms` | m_socks/socks5.go:178-181 | A text splits if and only if it has one of the two forms host:port and [host]:port, without other brackets or colons. |
| `AddrText.PortForms` | m_socks/socks5.go:202-205 | A port is taken if and only if it is digits of a value up to 65535. |
| `AddrText.ParseDotted` | m_socks/socks5.go:165-182 | A printed dotted quad parses to its bytes. |
| `AddrText.OnlyDotted` | m_socks/socks5.go:182 | What is taken for an IPv4 address is numbers of its bytes between dots. |
| `AddrText.FormMeant` | m_socks/socks5.go:182 | The first dot or colon says which form of IP address a text can be; without either it is none. |
| `AddrText.MappedForm` | m_socks/socks5.go:183-191 | Which addresses of 16 bytes are IPv4 addresses. |
| `Packet.PacketRoundTrip` | m_shadow/packet.go:21-64 | A packed plaintext is recovered if there is room for it; otherwise the buffer is reported short, and a repeated salt is refused. |
| `Packet.UnpackedWhen` | m_shadow/packet.go:43-64 | A packet is accepted, and as which text, if and only if it has a whole salt with a key that is not taken for seen, that key opens the rest to the text under the nonce of all zeros, and there is room. |
| `Packet.RefusedWhy` | m_shadow/packet.go:43-64 | Which error a packet is refused with: too short for a salt, no key, repeated, too short for a tag, no room, not authentic, the first that applies. |
| `Packet.PacketIntegrity` | m_shadow/packet.go:62-63 | Under an ideal key only what was sealed under the nonce of all zeros is accepted. |
| `Packet.Pack` | m_shadow/packet.go:21-39 | dst gets salt and sealed plaintext, or the buffer is reported short; the filter knows the salt in both cases. |
| `Packet.Unpack` | m_shadow/packet.go:43-64 | With the errors of the source in their order, dst gets the plaintext, also where it shares memory with the packet behind the salt. Without an error the plaintext is what the salt's key opens, and the filter does not take the salt for seen. |
| `Packet.ReadFrom` | m_shadow/packet.go:92-103 | Decrypting over its own input and copying down by the salt length leaves exactly the plaintext at the start of the caller's buffer; without an error it is what the salt's key opens. |
| `Packet.Exchange` | m_shadow/packet.go:21-103 | What is packed at one end arrives at the other if it fits and the filter there does not take the salt for seen; ends that share a filter never accept each other's packets. |
| `Packet.PacketRefused` | m_internal/saltfilter.go:73-85 | With exact slots, a packet whose salt has a key is refused for its salt if and only if that salt is among the last ones this process has sent. |
| `Packet.ReplayedPacket` | m_shadow/packet.go:92-103 | A datagram of another process, received twice, gives its plaintext twice. |
| `ReadEnd.ReadEnd.ReadFull` | m_socks/socks5.go:216-234 | Reading exactly so many bytes succeeds if and only if that many come in, over a plain or an encrypted connection. |
| `EndToEnd.EndToEnd` | m_server/socks_server.go:153-259 | For any client stream, fragmentation, record split and timer point: the server's `ReadAddr` returns the address the client sent and the target gets exactly the payload; with the connection cut anywhere, that address and a prefix, or an error and nothing. A client that is refused, or that asked for UDP, gets nothing forwarded. |
| `EndToEnd.EndToEndBroken` | m_server/socks_server.go:153-259 | Where the connection to the remote server, or that for the replies, may break at any write, and whatever the filters say: the remote server finds the address the client sent or none, and the target gets a prefix of what the client sent behind it. |
| `EndToEnd.WayBack` | m_server/socks_server.go:221-256 | What the target answers, in whatever pieces, reaches the client byte for byte through the server's own salt, cork and records; with the connection cut anywhere, a prefix of it. |
| `EndToEnd.ServeLocalConn` | m_server/socks_server.go:153-195 | Handshake answered exactly; on an agreed CONNECT the connection to the remote server gets an honest stream of the address followed by the client's bytes, otherwise nothing. |
| `EndToEnd.ServeServerConn` | m_server/socks_server.go:218-259 | Of whatever arrives, the address in front goes to the dialler and everything behind it to the target; without an address nothing does. |
| `EndToEnd.ServeReplayed` | m_server/socks_server.go:218-259 | An honest stream of another process, received twice by one server with one filter, is served twice: both times the client's address, and the whole payload at the target. |
| `EndToEnd.ServeTampered` | m_server/socks_server.go:218-259 | Whatever bytes come in behind the salt of an honest stream, under an AEAD ideal for its seals: the server finds the client's address or none, and the target gets a prefix of the client's payload, nothing without an address. If the AEAD opens those seals and what comes in is the honest stream, the payload arrives whole. |
| `EndToEnd.IdealKey` | m_shadow/cipher.go:18-23 | For any stream there is a key that is ideal for its seals and opens them, so that both halves of `ServeTampered` speak of the same keys. |
| `EndToEnd.OpenHonest` | m_shadow/stream.go:205-239 | An honest stream opens to exactly its payloads, for every key that opens the seals made for it. |
| `EndToEnd.OpenCut` | m_shadow/stream.go:205-239 | Cut anywhere, within the salt included, it opens to a prefix of them. |
| `EndToEnd.SameAddr` | m_server/socks_server.go:227-256 | If a cut stream still holds an address, it is the whole stream's, and what follows it is a prefix of the payload. |

## Left out

- Sockets, accept loops, deadlines, logging, configuration, shutdown, and the choice and keys of ciphers.
- The cryptography, the hash functions of the filters and their false-positive rate; a filter may have any false positives.
- m_socks/handler.go, a separate handler.
- The two directions of a relay running at the same time: they share no state of the connection but the salt filter, and are modelled one after the other (`EndToEnd.EndToEnd`, `EndToEnd.WayBack`).
- Rune operations, `ReadString`, and the shortcuts through io.WriterTo and io.ReaderFrom of the buffered reader and writer.
- BufioReader.Run: makes an `UnreadByte` only directly after a `ReadByte` or `Read` that delivered, since elsewhere it may put back another byte (`BufioReader.UnreadAfterSlice`); a call anywhere else is given up.
- BufioReader.Reader.constructor: does not hand back an argument that is already a large enough reader (m_bufio/bufio.go:44-48); the writer's constructor likewise.
- BufioReader.Reader.WriteTo: "all of the source" needs a source that never answers nothing without an error, since the loop stops at such an answer.
- BufioWriter.Writer.ReadFrom: does not claim to drain a source that answers nothing without an error; the loop stops there.
- RecordReader.Reader.WriteTo: on a sink that breaks io.Writer's rule, by taking less without an error, nothing is said of what does not arrive.
- Sources that end in the buffered reader's own "buffer full" error, which its callers could not tell apart.
- Delivery by `Close` on a corked connection: only the timer flushes.
- Cork.CorkedConn.Plain: stands for a connection without a cork, so that a record writer always writes to the same class; the cork's buffer is modelled by `BufioWriter.Writer`, whose `Write` and `Flush` do what those of the standard library do.
- ReadEnd: the encrypted form starts behind the salt, which `StreamConn.InitReader` has read.
- AddrText: printing and parsing of IPv6 text, and whether IPv4 fields may have leading zeros, are parameters; round trips of IPv6 text are not claimed.
- BloomRing.Check, which locks a lock it already holds (m_internal/bloomring.go:86-94). `Add` and `Test` are atomic steps.
- Random salts never fail to be drawn; they are arbitrary bytes.
- Packet: the limit of 128 bytes on nonces, `packetConn.WriteTo`, and errors of the packet connection below; a datagram that does not fit the buffer is cut off.
- Integer widths: counters and lengths are unbounded, except for the bytes of headers, ports and nonces, which wrap as in the source.
