# Jedis core in Dafny

This project models the request-handling core of Jedis, a small Redis-like
key-value server written in Java (`src/main/java/Main.java` and
`src/main/java/ValueWithExpiry.java`). It models four parts and proves
properties of each:

- the RESP codec: the request tokenizer `parseRESP` and the reply encoders;
- the in-memory store `storeSet`, whose entries expire lazily on read;
- the two readers of the RDB snapshot file, `readValueFromRdb` for GET and
  `handleKeysCommand` for KEYS, together with `lengthEncoding`;
- the command switch of `handleRead`, the SET / CONFIG GET handlers and
  `setDatabaseConfig`.

Files:

| file | module | contents |
|---|---|---|
| `wrappers.dfy` | `Wrappers` | `Option`, `Result`, and the `Fault`s a request can end in |
| `javalang.dfy` | `JavaLang` | the Java library behaviour the server relies on: `long` wrap-around, `String.trim`, `toLowerCase`, `%d`, `Integer.parseInt` / `Long.parseLong`, `String.replace`, `String.split` |
| `resp.dfy` | `Resp` | encoders, the tokenizer (a `ParseResp` method and its specification `ParseSpec`), and the round trip |
| `store.dfy` | `Entry`, `Store` | the `ValueWithExpiry` record, `Lookup` (getValueWithExpiryCheck) and `Put` |
| `rdb.dfy` | `Rdb` | the byte stream, the length encoding, the two snapshot scans, and a reference reading of the record region |
| `server.dfy` | `Server` | `setDatabaseConfig`, `Dispatch` (the switch), `HandleRequest`, and the `Server` class with the store and configuration as fields |

Each imperative piece of the source is a method with loops whose `ensures`
ties its result to a specification function. This covers the `parseRESP`
loop, the StringBuilder loop, both `InputStream` readers, the argument loop
and the map updates. The lemmas are proved about those functions.

A request that crashes the Java server becomes a `Result.Err` value. The
faults are:

- `NumberFormat`: a bad count or PX argument;
- `IndexOutOfBounds`: a missing argument;
- `NegativeLength`: `readNBytes(-1)`;
- `FileNotFound`: KEYS run without a snapshot file;
- `NonTermination`: the `parseRESP` loop spinning forever.

On a fault the store is left in the state the Java code had reached at that
point. For example, a GET whose snapshot read faults has already removed the
expired entry.

Where the code departs from the RESP and RDB formats it implements, the
model follows the code:

- The tokenizer is not binary-safe. It replaces CRLF with commas, splits on
  commas and never uses the declared `$len`. `Resp.ParseIgnoresDeclaredLengths`
  and `Resp.CommaCutsValue` state this.
- A token without `$` where a bulk header is expected makes the loop spin
  instead of reporting a malformed request.
- The readers do not fail soft. A special length encoding (top bits `11`)
  decodes to -1, and `readNBytes(-1)` throws an exception nobody catches.
- The record loop of GET is entered even after the scan stopped at `0xFF`.
  The scan has already consumed that byte, so the loop reads whatever
  follows it as records (`Rdb.RecordsReadPastEndOpcode`).
- After `0xFB` the scan stops, and the record loop reads on until the stream
  ends. It therefore reaches the file's `0xFF`, reads it as a key length,
  decodes -1 and faults. So a GET of a key not read before that point faults
  instead of giving null (`Rdb.SampleMissingKeyFaults`).
- The `0xFB` branch skips as many bytes as the table sizes say, and the
  record loop never skips a value's type byte. The reading therefore lines
  up with the records only by accident. On the one-record sample, GET's first
  skip (size 1) swallows the second size byte, and the record's type byte 0
  is then read as the second size, so the second skip consumes nothing. KEYS
  decodes its size byte 1 twice, so its second skip consumes the type byte.
  Both scans stop at the record's key length (`Rdb.SampleReads`). With a table size of 2 the skips
  swallow the first key, the loop reads each later type byte 0 as an empty
  key or value, and a GET of a key the file holds faults
  (`Rdb.TwoRecordsLoseHeldKey`).
- KEYS raises FileNotFound on a missing file, where GET gives null.
- SET with a bad PX argument or too few arguments throws. It does not always
  reply OK.
- Expiry is strict: the entry is still returned at `now == expiryTime`.

## Model

| member | source | states |
|---|---|---|
| Entry.NeverExpiresSentinel | src/main/java/ValueWithExpiry.java:5-12 | an entry built with expiry -1 is never expired, at any instant |
| Store.Lookup | src/main/java/Main.java:287-297 | a missing key gives null and the same map; an expired entry gives null and the map minus exactly that key; a live entry gives its value and the same map; the result map is always a sub-map |
| Store.Put | src/main/java/Main.java:271 | the new map has the old keys plus key, the fresh entry (value, expiryTime) at key, and every other key unchanged |
| Store.PutThenLookup | src/main/java/Main.java:271-297 | a read right after a write returns the value exactly when expiry is -1 or now is at or before the expiry |
| Store.PutNeverExpires | src/main/java/Main.java:265-271 | a write without expiry is read back at every instant and the read changes nothing |
| Store.LookupAtExpiryInstant | src/main/java/Main.java:292 | the comparison is strict: at now == expiryTime the value is still returned |
| Store.PutOverwrites | src/main/java/Main.java:271 | a second write to a key replaces the first entirely |
| Store.PutLeavesOtherKeys | src/main/java/Main.java:271 | writing one key leaves every other key's read unchanged |
| Store.AbsentStaysAbsent | src/main/java/Main.java:287-297 | once a read finds a key absent, later reads find it absent and change nothing |
| Store.LookupIdempotent | src/main/java/Main.java:287-297 | a second read at the same instant returns the same answer and does not change the map again |
| Server.Server.GetValueWithExpiryCheck | src/main/java/Main.java:287-297 | the value returned and the new storeSet are those Lookup gives; dir and dbfilename unchanged |
| Server.Server.HandleSetCommand | src/main/java/Main.java:262-273 | the reply or fault and the new storeSet are those SetCommand gives |
| Server.SetCommandWrites | src/main/java/Main.java:262-273 | with a key and a value, SET succeeds exactly when the expiry computes: it then replies +OK, adds the key, stores (value, expiry) there and keeps every other key; on a fault the map is unchanged; expiry is -1 unless the fourth token lowercases to px |
| Server.SetExpiryCases | src/main/java/Main.java:265-269 | no PX gives -1; PX 5000 gives now + 5000; PX without an argument is an index fault; a non-numeric argument is a number-format fault |
| JavaLang.WrapLong | src/main/java/Main.java:268 | now + ms as a Java long: the exact sum when in range, minus or plus 2^64 after a single overflow |
| Rdb.LengthEncodingRules | src/main/java/Main.java:244-260 | top bits 00: b itself (at most 63), no byte read; 01: (b - 64) * 256 + next byte (at most 16383), one byte read; 10: the next four bytes as a signed big-endian int; 11 or end of stream: -1, nothing read |
| Rdb.LengthRoundTrip | src/main/java/Main.java:244-260 | decoding the leading byte of the shortest encoding of any n up to 2^31 - 1 reads the rest of that encoding and returns n |
| Rdb.LengthEncodingBoundaries | src/main/java/Main.java:244-260 | with LengthRoundTrip, 63 takes the one-byte form, 64 and 16383 the two-byte form and 16384 the five-byte form |
| Rdb.LengthEncoding | src/main/java/Main.java:244-260 | the stream-reading method returns the length DecodeLength gives and leaves the cursor where DecodeLength says |
| Rdb.ByteStream.Read | src/main/java/Main.java:181 | read() returns the next byte and advances one, or -1 at the end without moving |
| Rdb.ByteStream.ReadNBytes | src/main/java/Main.java:194 | readNBytes(n) returns the next min(n, remaining) bytes and advances past them; a negative n faults and reads nothing |
| Rdb.ByteStream.ReadArray | src/main/java/Main.java:176-179 | read(byte[n]) advances min(n, remaining) and returns that count, or -1 at the end |
| Rdb.ReadValueFromRdb | src/main/java/Main.java:163-207 | the result of the two loops over the stream is RdbLookup of the same bytes |
| Rdb.RdbLookupAbsent | src/main/java/Main.java:164-173 | with dir or dbfilename null, or no file, the lookup gives null |
| Rdb.LookupIsFirstMatch | src/main/java/Main.java:192-202 | on every record region, GET returns the value of the first record read before the fault or the end of the stream whose key equals the target; with no such record it gives the fault that ended the reading, or null when the stream ended |
| Rdb.FirstMatchMeans | src/main/java/Main.java:192-202 | FirstMatch is null exactly when no key matches; otherwise it is the value of a matching record with no match before it |
| Rdb.LookupScanSkipsSelectDbIndex | src/main/java/Main.java:184-185 | GET's scan steps over the index byte after 0xFE |
| Rdb.LookupScanResizeDb | src/main/java/Main.java:186-189 | after 0xFB, GET's scan decodes two lengths, each from its own byte, skips that many bytes after each, and stops |
| Rdb.RecordsReadPastEndOpcode | src/main/java/Main.java:181-192 | when the scan stops at 0xFF the record loop still runs on the bytes after it |
| Rdb.SpecialLengthFaults | src/main/java/Main.java:192-194 | a key-length byte with top bits 11, 0xFF included, makes both record loops fault with a negative length, before any record is read |
| Rdb.ShortRecordRead | src/main/java/Main.java:192-201 | a key length byte below 64, the key, a value length byte below 64 and the value are read as one record, and the reading goes on right after it |
| Rdb.SampleReads | src/main/java/Main.java:163-242 | on a small well-formed snapshot holding foo = bar, GET foo gives bar and KEYS gives foo |
| Rdb.SampleMissingKeyFaults | src/main/java/Main.java:192-202 | on that snapshot GET of any other key faults at the end opcode instead of giving null |
| Rdb.SampleRecordsRead | src/main/java/Main.java:192-201 | on that snapshot the record loop reads the one record foo = bar and then faults at the end opcode |
| Rdb.TwoRecordsLookupScan | src/main/java/Main.java:181-190 | on a snapshot with a table size of 2 and records a = b, c = d, GET's scan skips two bytes for the size 2 (the second size and the first type byte), then takes the key length 1 as the second size and skips the key a |
| Rdb.TwoRecordsRead | src/main/java/Main.java:192-201 | from there the record loop reads b as a key with the next type byte as an empty value, then c = d, and faults at the end opcode |
| Rdb.TwoRecordsLoseHeldKey | src/main/java/Main.java:163-207 | on that snapshot GET a, a key the file holds, faults with a negative length |
| Rdb.HandleKeysCommand | src/main/java/Main.java:209-242 | the result of the two loops over the stream is KeysReply of the same bytes, a file-not-found fault when there is no file |
| Rdb.KeysScanKeepsSelectDbIndex | src/main/java/Main.java:223-224 | KEYS's scan treats the byte after 0xFE as the next opcode |
| Rdb.KeysScanReusesResizeByte | src/main/java/Main.java:226-230 | after 0xFB, KEYS's scan reads one byte n and skips n bytes twice (for n below 64), then stops |
| Rdb.FirstKeyIsFirstRecord | src/main/java/Main.java:234-239 | on every record region, KEYS returns the key of the first record read before the fault or the end of the stream, foo when the stream ends before any record, and faults only when no record was read, with the fault that ended the reading |
| Rdb.FirstKeyIgnoresValue | src/main/java/Main.java:234-239 | with a one-byte key length, KEYS replies that many bytes as the key whatever follows them, a faulting value length included |
| Rdb.KeyBeforeFaultingValue | src/main/java/Main.java:234-239 | on key a followed by the integer-encoded value 123, the record loop faults before completing a record while KEYS replies a |
| Rdb.KeysFormatIsArrayReply | src/main/java/Main.java:241 | the KEYS reply is the one-element array reply of the key |
| Resp.ArrayReplyShapes | src/main/java/Main.java:299-312 | the empty list encodes as *0 CRLF; a one-element list is *1 CRLF followed by that element's bulk string |
| Resp.EncodeStringAsRespArray | src/main/java/Main.java:306-312 | the StringBuilder loop yields the count header followed by each element's bulk string in list order |
| Resp.ReadBulkOfBulk | src/main/java/Main.java:299-304 | a length-driven reader recovers any string, CR and LF included, from its bulk encoding |
| Resp.EncodeStringAsRespInjective | src/main/java/Main.java:299-304 | null and every string encode differently, and distinct strings encode differently |
| Resp.ParseResp | src/main/java/Main.java:83-104 | the tokenizer's loop returns what ParseSpec specifies, the spin included as NonTermination |
| Resp.CollectShape | src/main/java/Main.java:93-101 | the element loop returns min(count, remaining tokens / 2) elements, the k-th being the token after the k-th "$" token |
| Resp.CollectFaults | src/main/java/Main.java:93-101 | the element loop's only fault is the spin, and it spins exactly when a token it examines lacks "$" |
| Resp.ParseSpecShape | src/main/java/Main.java:83-104 | a parsed list is never longer than the declared count, and each element is the token right after a "$" token, in input order |
| Resp.ParseSpecNotArray | src/main/java/Main.java:89 | a first token without "*" yields an empty list |
| Resp.ParseIgnoresDeclaredLengths | src/main/java/Main.java:83-104 | for any "$" tokens before the values, the result is the values cut to the declared count: the declared lengths are never used |
| Resp.CommaCutsValue | src/main/java/Main.java:84-85 | the encoded one-element array holding "a,b" tokenizes to the element a alone |
| Resp.RoundTrip | src/main/java/Main.java:83-104 | an array reply of elements free of commas and CR, trimmed as every request is, tokenizes back to exactly those elements |
| JavaLang.TrimDropsFinalCrlf | src/main/java/Main.java:120 | trimming a request that starts and ends with a visible character removes exactly the final CRLF |
| JavaLang.ParseDecimalOfDecimal | src/main/java/Main.java:90 | parseInt reads back the count the encoder wrote |
| JavaLang.ReplaceCrlfAcross | src/main/java/Main.java:84 | replace turns the first CRLF after a CR-free prefix into a single comma |
| JavaLang.SplitOfJoin | src/main/java/Main.java:85 | split gives back comma-free pieces joined by commas when the last piece is not empty |
| JavaLang.LowerIdempotent | src/main/java/Main.java:128 | lowering a verb twice is lowering it once |
| Server.DispatchIgnoresVerbCase | src/main/java/Main.java:128-130 | the switch gives the same reply and store whether or not the verb is lowercased first |
| Server.PingReplies | src/main/java/Main.java:138-140 | PING replies +PONG whatever its arguments and leaves the store unchanged |
| Server.EchoReplies | src/main/java/Main.java:131-137 | ECHO without an argument writes nothing; with one it replies the argument's bulk string, which a length-driven reader decodes back to the argument |
| Server.UnknownVerbIgnored | src/main/java/Main.java:130-160 | a verb the switch does not know writes nothing and leaves the store unchanged |
| Server.DispatchStoreEffect | src/main/java/Main.java:130-160 | only SET (one write of the key) and GET (removal of the key it reads) change the store |
| Server.GetPrefersStore | src/main/java/Main.java:144-151 | GET replies the store's live value if there is one; only when the store gives null does it read the snapshot, replying that value's bulk string or null, or its fault |
| Server.GetMissingIsNull | src/main/java/Main.java:144-151 | GET of a key absent from the store, with no snapshot file, replies $-1 and changes nothing |
| Server.ConfigGetList | src/main/java/Main.java:275-285 | the list is non-empty exactly for the two known settings, and then it is the name asked for followed by that setting's value |
| Server.Server.HandleConfigGetCommand | src/main/java/Main.java:275-285 | the reply is the array reply of ConfigGetList for the server's configuration |
| Server.ConfigGetReplies | src/main/java/Main.java:155-159 | CONFIG GET with a parameter lowercasing to dir or dbfilename replies the two-element array of name and value; any other parameter replies *0 CRLF; a missing parameter is an index fault |
| Server.SetThenGet | src/main/java/Main.java:130-151 | a SET sent as an array request replies +OK, and a GET of that key sent the same way then replies the value's bulk string and changes nothing |
| Server.SetPxThenGet | test/python/test.py:36-40 | after SET test123 gonsnoig px 5000 at t1, a GET at or before t1 + 5000 replies the value; a later GET with no snapshot file replies null and removes the entry |
| Server.Server.HandleRead | src/main/java/Main.java:106-161 | the reply or fault and the new storeSet are those HandleRequest gives for the trimmed request; the configuration is unchanged |
| Server.LastFlagValueMeans | src/main/java/Main.java:57-64 | no value is found exactly when the flag never occurs with an argument after it; otherwise the value is the argument after the last such occurrence |
| Server.DatabaseConfig | src/main/java/Main.java:56-73 | the loop leaves the value after the last --dir and the last --dbfilename, or ".", "dump.rdb" when absent |
| Server.DatabaseConfigExamples | src/main/java/Main.java:56-73 | no arguments give ".", "dump.rdb"; a later --dir overrides an earlier one; a trailing flag without a value is ignored |
| Server.Server.constructor | src/main/java/Main.java:15-21 | the store starts empty and the configuration is what setDatabaseConfig computes from the arguments |

## Left out

- The selector loop, `handleAccept`, socket registration and `clientChannel.write` (Main.java lines 20-54, 76-81): these are non-blocking network I/O. A reply is modelled as the string that would be written.
- The single 256-byte `read` per readiness event and `bytesRead == -1` (lines 109-118). The request is taken as a string already read. Nothing is buffered across reads, and a request longer than 256 bytes is not modelled.
- Character sets: the request bytes and the snapshot's key and value bytes are read one character per byte. Real UTF-8 decoding is not modelled, and neither is the gap between `String.length()` and the byte length for non-ASCII text.
- `toLowerCase` and `equalsIgnoreCase` are modelled on ASCII letters only.
- Opening the file, `File.exists` and the `IOException` handler (lines 169-175, 203-205). The snapshot is an `Option` of its bytes, with None meaning that no file exists. Read errors other than end of stream are not modelled.
- `System.currentTimeMillis` (lines 268, 292) is the parameter `now`.
- Console logging with `System.out` and `System.err` is left out.
- Exceptions are not propagated to the selector loop. A fault ends the request with an `Err` value. In the Java program any such exception ends `main`: the unchecked ones leave the loop, and the `FileNotFoundException` of KEYS is caught at Main.java line 51, after which `main` returns. So nothing is served after a fault, whereas the model's `Server.Server.HandleRead` can be called again on the state the fault left.
- Locale: `toLowerCase()` (Main.java lines 128, 157) and `String.format` with `%d` (lines 241, 303) use the JVM's default locale. The model fixes an English-like locale: ASCII lowercasing and ASCII decimal digits. Under a Turkish locale, for example, `PING` lowercases to a string matching no case of the switch.
- Server.SetPxThenGet: this assumes a non-negative clock, so that now + 5000 is never the sentinel -1.
- Rdb.ByteStream.ReadArray: the bytes read into the header arrays are not kept, because neither reader uses them.
- Rdb.LookupScanResizeDb: this states only the case where both table sizes take one byte (below 64). The other cases follow from Rdb.LookupScan, Rdb.ReadLengthPrefixed and Rdb.LengthEncodingRules.
- Rdb.KeysScanReusesResizeByte: this states only the case of a one-byte length. The other cases follow from Rdb.KeysScan and Rdb.LengthEncodingRules.
