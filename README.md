# VaultMesh file transfer core, in Dafny

VaultMesh stores files on a C++ storage node. A Python control panel fronts the node and talks to it over raw TCP, using a binary frame. This project models the parts that move file bytes:

- **The frame header** (`Protocol.h`): 14 bytes, made of
  - the magic byte `0x56`;
  - a command byte (`0x01` for upload, `0x02` for download);
  - the file name length as a 4-byte big-endian field;
  - the file size as an 8-byte big-endian field.

  The Python side builds the header with `struct.pack('>BBIQ', …)` and reads it back with `struct.unpack`. The C++ side copies the fields out with `memcpy` and converts them with `ntohl` and the hand-written `ntoh64`.
- **The storage node** (`StorageNode.cpp`):
  - `handleClient` reads the header, checks the magic byte and routes on the command.
  - `readExact` loops until it has the requested number of bytes.
  - `processUpload` reads the name, rejects `..`, and writes the body to the storage directory in 4096-byte reads.
  - `processDownload` answers with a header that echoes the request's name length and carries the file size, then sends the contents in 4096-byte writes.
- **The control panel's file routes** (`file_routes.py`):
  - the listing: administrators see every file, everyone else sees their own;
  - the download access checks (404 and 403);
  - the upload relay, which streams an uploaded file to the node and records it only afterwards;
  - the download relay `iterfile`, which sends a download request, reads the 14-byte response header and streams the declared number of bytes back.
- **The test client** (`test_client.py`): it writes a fixed text file, then uploads it under its base name.

Modules (one file each):

| module | file | holds |
|---|---|---|
| `Wrappers` | `wrappers.dfy` | `Option` and `Result` |
| `Bytes` | `bytes.dfy` | bytes and fixed-width integers; the big-endian codec; host memory order on a little- or big-endian host; byte reversal; chunk streams |
| `Utf8` | `utf8.dfy` | Python's UTF-8 encoding of names, and the adjacent-pair search behind the `..` check |
| `Protocol` | `protocol.dfy` | the constants, the header record and its wire image, and `struct.pack`/`struct.unpack` for `'>BBIQ'` |
| `Net` | `socket.dfy` | a TCP socket (see below) |
| `Streams` | `streams.dfy` | a seekable byte source (the uploaded file, a file opened `"rb"`) and the Python senders' `read(4096)`/`sendall` loop |
| `StoreCore` | `store_core.dfy` | the storage node as a class; its storage directory is a map from name bytes to contents |
| `FileRoutes` | `file_routes.dfy` | the control panel routes; the database is a map from file id to record |
| `TestClient` | `test_client.dfy` | the test script |
| `EndToEnd` | `end_to_end.dfy` | lemmas that connect the relay's and the node's views of the same bytes |

### The socket

A socket carries the peer's behaviour as its state, and that state is the oracle for every call:

- `endpoint` says what `connect` finds: a listener, a refusal, or an unreachable address.
- `incoming` is what the peer sends, cut into the segments in which it arrives. One `recv(n)` or `read(fd, buf, n)` returns at most `n` bytes and never more than the rest of the current segment.
- `resetAtEnd` says whether the peer resets the connection after its last byte instead of closing cleanly. A reset makes `recv` raise and makes `read` return -1.
- `room` is how many more bytes the peer accepts. The model simplifies here: a send past it fails at once, so `sendall` raises and `write` returns -1. What the real programs do instead (blocking, or a SIGPIPE that ends the node) is under "## Left out".
- `sent` records every send in order.

Every contract is stated for all values of these fields. The properties therefore hold however the network splits, delays or truncates the bytes.

What the code does, in points that are easy to misread:

- the download response header carries the request's name length, passed through `htonl` (store_core/src/StorageNode.cpp:241);
- only `ConnectionRefusedError` gives 503; every other failure of the upload relay gives 500 (control_panel/src/api/file_routes.py:88-91);
- a body that ends early makes `processUpload` return false from its read loop, and there is no other short-body error (store_core/src/StorageNode.cpp:176-191);
- `report.txt` encodes to 10 bytes, so its name-length field is `0x0A` (control_panel/src/api/file_routes.py:63, :78).

## Model

| member | source | states |
|---|---|---|
| Bytes.Pow256Widths | store_core/include/common/Protocol.h:25-26 | the 4- and 8-byte fields hold exactly the `uint32_t` and `uint64_t` ranges |
| Bytes.EncodeBE | store_core/include/common/Protocol.h:25-26 | the k big-endian bytes of a value (the `>I` and `>Q` fields, and `htonl`'s wire order); always exactly k bytes; its inverse is `DecodeBE` by the two lemmas below |
| Bytes.DecodeBE | store_core/include/common/Protocol.h:25-26 | the value of big-endian bytes, below 256^k for k bytes, so a 4- or 8-byte field fits `uint32_t` or `uint64_t` |
| Bytes.DecodeEncodeBE | store_core/include/common/Protocol.h:25-26 | reading back the k big-endian bytes of any value below 256^k returns the value |
| Bytes.EncodeDecodeBE | store_core/include/common/Protocol.h:25-26 | encoding the value of any k bytes returns the bytes, so network order is a bijection |
| Bytes.ReverseAt | store_core/src/StorageNode.cpp:81-88 | byte i of the reversal is byte 7-i of the input (for 8 bytes: `data[i] = orig[7-i]`) |
| Bytes.ReverseReverse | store_core/src/StorageNode.cpp:76-91 | reversing the bytes twice restores them |
| Bytes.HostValueBytes | store_core/src/StorageNode.cpp:116-118 | copying an integer into memory and reading it back returns the integer, on either host order |
| Bytes.HostBytesValue | store_core/src/StorageNode.cpp:116-118 | `memcpy` of k bytes into an integer and back out restores the bytes, on either host order |
| Bytes.ChunksOf | control_panel/src/api/file_routes.py:85-86 | the successive results of `read(4096)` up to the empty read; its properties are stated by `ChunksOfSpec` |
| Bytes.ChunksOfSpec | control_panel/src/api/file_routes.py:85-86 | the successive `read(4096)` results are non-empty, at most 4096 bytes, all full but the last, and concatenate to the whole file in order |
| Utf8.Width | control_panel/src/api/file_routes.py:63 | one character takes 1 to 4 bytes |
| Utf8.EncodeChar | control_panel/src/api/file_routes.py:63 | its byte count is the character's width; an ASCII character is its own single byte; every byte of a non-ASCII character is at least 0x80 |
| Utf8.Encode | control_panel/src/api/file_routes.py:63 | `str.encode('utf-8')`, character by character; its properties are stated by the lemmas below |
| Utf8.EncodeAppend | control_panel/src/api/file_routes.py:63 | the encoding of a concatenation is the concatenation of the encodings |
| Utf8.EncodeLength | control_panel/src/api/file_routes.py:78 | `len(filename_bytes)` is at least the character count plus one per non-ASCII character, at most 4 per character, and equal to the character count exactly when no character is non-ASCII |
| Utf8.EncodeAscii | scripts/test_client.py:16-17 | an ASCII string encodes to its own character codes, one byte each |
| Utf8.NonAsciiZero | control_panel/src/api/file_routes.py:63 | a string has no non-ASCII character exactly when every character is below 0x80 |
| Utf8.HasPairIndex | store_core/src/StorageNode.cpp:156 | the pair search holds exactly when some index i has x at i and y at i+1 |
| Utf8.EncodeKeepsAsciiPairs | store_core/src/StorageNode.cpp:156 | an ASCII pair occurs in the UTF-8 bytes exactly when it occurs in the characters |
| Protocol.CommandByte | store_core/include/common/Protocol.h:13-16 | UPLOAD is 0x01 and DOWNLOAD is 0x02, in both directions |
| Protocol.CommandOf | store_core/src/StorageNode.cpp:134-142 | a byte names a command exactly when it is 0x01 or 0x02, and then it is that command's opcode |
| Protocol.CommandsDistinct | store_core/include/common/Protocol.h:13-16 | the opcodes are distinct, and each opcode names its command back |
| Protocol.Serialize | store_core/include/common/Protocol.h:6-27 | the wire image is 14 = 1+1+4+8 bytes with no padding: magic at 0, command at 1, the name length big-endian at 2..6, the size big-endian at 6..14 |
| Protocol.Deserialize | store_core/src/StorageNode.cpp:104-118 | the fields read from their wire offsets: magic and command are bytes 0 and 1, and each integer field is the value whose big-endian bytes are the bytes at its offset |
| Protocol.DeserializeSerialize | store_core/include/common/Protocol.h:18-27 | every header survives serialisation |
| Protocol.SerializeDeserialize | store_core/include/common/Protocol.h:18-27 | every 14-byte string is the image of the header read from it |
| Protocol.Pack | control_panel/src/api/file_routes.py:78 | `struct.pack('>BBIQ')` succeeds exactly when each value is in its format code's range; it then gives 14 bytes that decode to the four values; otherwise it is `struct.error` |
| Protocol.Unpack | control_panel/src/api/file_routes.py:143 | `struct.unpack('>BBIQ')` succeeds exactly on a 14-byte buffer, and gives the header whose image is that buffer |
| Protocol.UnpackPack | control_panel/src/api/file_routes.py:133-143 | unpacking a packed header returns the packed values |
| Protocol.PackUnpack | control_panel/src/api/file_routes.py:143 | packing the fields unpacked from a 14-byte buffer rebuilds the buffer |
| Protocol.ReportUploadHeader | control_panel/src/api/file_routes.py:78 | the concrete upload header for a 10-byte name and a 3-byte body is `56 01 00 00 00 0A 00 00 00 00 00 00 00 03` |
| Net.ArrivedSpec | control_panel/src/api/file_routes.py:149 | a receive returns the next stream bytes in order, at most n of them, at least one while bytes remain, and leaves the rest pending |
| Net.ArrivedPrefix | control_panel/src/api/file_routes.py:149 | the bytes a receive returns are a prefix of the pending stream, and what stays pending is the rest of it |
| Net.CopyInto | store_core/src/StorageNode.cpp:178 | `read` copies the received bytes to `buf[offset..]` and leaves the rest of the buffer as it was |
| Net.Socket.Client | control_panel/src/api/file_routes.py:73 | a fresh unconnected client socket with the given peer behaviour and nothing sent |
| Net.Socket.Accepted | store_core/src/StorageNode.cpp:60 | an accepted, open socket with the given request bytes and nothing sent |
| Net.Socket.Connect | control_panel/src/api/file_routes.py:74 | a listener connects; a refusal is `ConnectionRefusedError`; anything else is another connection error, and the socket stays unconnected |
| Net.Socket.SendAll | control_panel/src/api/file_routes.py:79 | `sendall` succeeds exactly when the peer accepts every byte; otherwise the peer took a prefix and it raises |
| Net.Socket.Write | store_core/src/StorageNode.cpp:253 | `write` returns the byte count, or -1 once the peer stops accepting, after the part it took |
| Net.Socket.Recv | control_panel/src/api/file_routes.py:138 | `recv(n)` returns a prefix of the pending stream of at most n bytes, empty exactly when nothing is pending; it raises exactly at a reset with nothing pending; the rest stays pending |
| Net.Socket.Read | store_core/src/StorageNode.cpp:200 | `read` returns a count of at most n; it is at most 0 exactly when n is 0 or the stream ended, and -1 exactly at a reset; otherwise the next count stream bytes are in the buffer at the offset and have been consumed |
| Net.Socket.Close | store_core/src/StorageNode.cpp:144 | the socket is closed |
| Streams.ByteSource.constructor | scripts/test_client.py:47 | a file opened at its start |
| Streams.ByteSource.SeekEnd | control_panel/src/api/file_routes.py:67 | the cursor moves to the end of the file |
| Streams.ByteSource.Tell | control_panel/src/api/file_routes.py:68 | `tell` returns the cursor, which is the file size after `SeekEnd` |
| Streams.ByteSource.Rewind | control_panel/src/api/file_routes.py:69 | the cursor returns to 0 |
| Streams.ByteSource.Read | control_panel/src/api/file_routes.py:85 | `read(n)` returns the next min(n, remaining) bytes and advances the cursor by that many |
| Streams.PumpChunks | control_panel/src/api/file_routes.py:85-86 | the loop succeeds exactly when the peer takes the whole file; the sends are then the file's 4096-byte reads in order; the bytes on the wire are always a prefix of the file |
| Streams.SendHeaderAndName | control_panel/src/api/file_routes.py:79-82 | the header then the name go out in two sends, or a prefix of them goes out; `room` drops accordingly |
| Streams.SendUpload | control_panel/src/api/file_routes.py:76-86 | the header, the name and the chunked content go out in order exactly when the peer accepts all of them; the wire otherwise carries a prefix of them |
| StoreCore.Ntoh64 | store_core/src/StorageNode.cpp:76-91 | the result's memory bytes are the argument's memory bytes in reverse order (`data[i] = orig[7-i]`), on either host |
| StoreCore.Ntoh64Reverses | store_core/src/StorageNode.cpp:76-91 | `ntoh64` reverses the 8 bytes of its argument's value, on either host |
| StoreCore.Ntoh64Involutive | store_core/src/StorageNode.cpp:76-91 | `ntoh64` applied twice is the identity |
| StoreCore.Ntohl | store_core/src/StorageNode.cpp:121 | the result's big-endian bytes are the bytes the host holds in memory |
| StoreCore.Htonl | store_core/src/StorageNode.cpp:241 | the result's host memory bytes are the argument's big-endian bytes |
| StoreCore.DecodeHeader | store_core/src/StorageNode.cpp:103-131 | the header `handleClient` decodes with `memcpy`, `ntohl` and `ntoh64` (the swap applied on a little-endian host only) is the wire header, on either host |
| StoreCore.ResponseHeader | store_core/src/StorageNode.cpp:234-251 | the response header `processDownload` assembles is the wire image of (magic, DOWNLOAD, the request's name length, the file size), on either host |
| StoreCore.FindDotDot | store_core/src/StorageNode.cpp:156 | `find("..")` returns the first index of two adjacent dots, or npos exactly when there are none |
| StoreCore.RejectsDotDotNames | store_core/src/StorageNode.cpp:155-159 | the node rejects a name from the control panel exactly when the Python string contains `..` |
| StoreCore.StoredOnSuccess | store_core/src/StorageNode.cpp:171-191 | a complete upload stores exactly the `file_size` bytes that follow the name |
| StoreCore.StorageNode.constructor | store_core/src/StorageNode.cpp:15-16 | a node with the given host order and storage directory |
| StoreCore.StorageNode.ReadExact | store_core/src/StorageNode.cpp:194-205 | true exactly when `size` bytes arrive; then they are the next stream bytes, in the buffer and consumed; false leaves the stream ended |
| StoreCore.StorageNode.ReceiveName | store_core/src/StorageNode.cpp:148-153 | the name is the next `filename_len` stream bytes, or none when the stream ends first |
| StoreCore.StorageNode.ProcessUpload | store_core/src/StorageNode.cpp:147-192 | true exactly when the name arrived without `..` and the whole body followed; the storage directory becomes `Stored`: an accepted name holds the body bytes that arrived, at most `file_size` of them, and nothing changes otherwise |
| StoreCore.StorageNode.ReceiveFile | store_core/src/StorageNode.cpp:164-191 | the named file is truncated and then holds the body bytes that arrived, at most `file_size`; true exactly when all arrived |
| StoreCore.StorageNode.ReceiveBody | store_core/src/StorageNode.cpp:171-187 | the bytes written are the first min(available, `file_size`) stream bytes; true exactly when `file_size` of them arrived |
| StoreCore.StorageNode.ProcessDownload | store_core/src/StorageNode.cpp:208-267 | for an accepted name of a stored file, the node sends the response header then the contents in 4096-byte writes, and succeeds exactly when the peer accepts them all; otherwise it sends nothing |
| StoreCore.StorageNode.SendReply | store_core/src/StorageNode.cpp:253-263 | the header, then the content writes, go out in full exactly when the peer takes them all; the wire otherwise carries a prefix |
| StoreCore.StorageNode.SendContents | store_core/src/StorageNode.cpp:255-263 | the writes are the contents' 4096-byte reads in order exactly when the peer takes them all; otherwise a prefix of the contents |
| StoreCore.StorageNode.HandleClient | store_core/src/StorageNode.cpp:93-145 | a short header or a wrong magic byte drops the connection with no change; otherwise the decoded command routes to the upload handler (store as `Stored`, nothing sent), the download handler (reply as `Replied`) or neither; the socket is closed on every path |
| FileRoutes.ConstantsMatchNode | control_panel/src/api/file_routes.py:12-22 | the relay's magic and opcodes are the node's |
| FileRoutes.ListFiles | control_panel/src/api/file_routes.py:35-46 | an administrator sees every record; anyone else sees exactly the records they own, unchanged |
| FileRoutes.Authorize | control_panel/src/api/file_routes.py:114-121 | 404 for an unknown id, 403 unless the caller owns the file or is an administrator, and otherwise the record |
| FileRoutes.DownloadableIffListed | control_panel/src/api/file_routes.py:108-121 | a user may download a file exactly when the listing shows it to them, and receives the same record |
| FileRoutes.UploaderSeesUpload | control_panel/src/api/file_routes.py:94-104 | once the new record is stored under a fresh id, the uploader's listing shows it and the uploader may download it; another user sees it exactly when they are an administrator; no other listing changes |
| FileRoutes.UploadFile | control_panel/src/api/file_routes.py:48-106 | a refused connection is 503; any other failure is 500 and leaves no record; success comes exactly when the node accepts the header, the name and the content, and only then is there a record; the socket is closed on every path |
| FileRoutes.UploadConnected | control_panel/src/api/file_routes.py:76-91 | a name or size beyond the header's range is a 500 with nothing sent; otherwise as in `UploadFile` once connected |
| FileRoutes.ReceiveUpTo | control_panel/src/api/file_routes.py:145-153 | the chunks forwarded are non-empty, at most 4096 bytes each, and concatenate to the first min(size, available) stream bytes; those are consumed; it fails exactly at a reset before `size` bytes arrived |
| FileRoutes.Request | control_panel/src/api/file_routes.py:128-135 | connects and sends the download header (size 0) and the name; succeeds exactly when both reach the node |
| FileRoutes.IterFile | control_panel/src/api/file_routes.py:126-157 | the request goes out as `SentRequest`; the body is streamed only if the single `recv(14)` returned all 14 bytes, and otherwise the stream is one empty chunk |
| FileRoutes.DownloadFile | control_panel/src/api/file_routes.py:108-164 | a refused request fails with the `Authorize` status and never touches the node; otherwise a streaming response named after the file whose body is what `iterfile` yields (for a name that is not latin-1 the route fails instead, see "## Left out") |
| FileRoutes.IterFileFullHeader | control_panel/src/api/file_routes.py:137-140 | with the header read to its full 14 bytes, what the relay yields depends only on the node's byte stream, not on how it was cut into segments |
| FileRoutes.SplitReply | control_panel/src/api/file_routes.py:137-143 | a correct node reply for `report.txt`: the header declaring 3 bytes, then `abc` |
| FileRoutes.SplitSegments | control_panel/src/api/file_routes.py:138 | that reply, delivered as a 7-byte segment and the rest, gives a first `recv(14)` of 7 bytes |
| FileRoutes.ReportNameFits | control_panel/src/api/file_routes.py:132-133 | the download header for `report.txt` packs |
| FileRoutes.SplitHeaderAsWritten | control_panel/src/api/file_routes.py:137-140 | the relay as written streams nothing (one empty chunk) for the split reply |
| FileRoutes.SplitHeaderCorrected | control_panel/src/api/file_routes.py:137-140 | the corrected relay streams `abc` for the same reply |
| TestClient.Basename | scripts/test_client.py:22 | `os.path.basename` on a POSIX path; its properties are stated by `BasenameSpec` |
| TestClient.BasenameSpec | scripts/test_client.py:22 | `os.path.basename` returns the suffix after the last `/`; it contains no `/` and is preceded by one unless it is the whole path |
| TestClient.FileToSendIsBasename | scripts/test_client.py:8 | `test_upload.txt` is its own base name |
| TestClient.TestFileContents | scripts/test_client.py:14-17 | the file holds one byte per character of the text, each the character's code, since the text is ASCII |
| TestClient.SendFile | scripts/test_client.py:20-56 | a refused connection reports that the server is not running and sends nothing; other failures report an error; success comes exactly when the node takes the header, the name and the chunked content; the socket is closed on every path |
| TestClient.SendConnected | scripts/test_client.py:32-51 | the header, the name and the 4096-byte reads go out, or an error is reported after a prefix |
| TestClient.UploadFits | scripts/test_client.py:38 | a name and contents under 2^28 characters and bytes always fit the header |
| TestClient.TestUploadFits | scripts/test_client.py:38 | the test file's header packs |
| TestClient.Run | scripts/test_client.py:58-60 | the script writes the test file, and against a listening node with room sends exactly the header, the name and the file's 4096-byte reads |
| EndToEnd.UploadWire | control_panel/src/api/file_routes.py:76-86 | a complete upload is the 14-byte header, the UTF-8 name and the content |
| EndToEnd.UploadReachesNode | store_core/src/StorageNode.cpp:97-159 | the node decodes the relay's upload header to the packed name length and size; it accepts the name exactly when the Python name has no `..`; it then stores exactly the uploaded bytes, and otherwise changes nothing |
| EndToEnd.RecordNamesStoredFile | control_panel/src/api/file_routes.py:94-100 | for a name without `..`, the record `upload_file` creates names the file the node stored: its UTF-8 name is the key of exactly the uploaded bytes, its size is their length, and its owner is the uploader |
| EndToEnd.StoredWhole | store_core/src/StorageNode.cpp:147-192 | an upload request holding exactly a name and a body stores the body under the name, unless the name has `..` |
| EndToEnd.DownloadReplyForwarded | store_core/src/StorageNode.cpp:234-263 | the node's response header unpacks to (magic, DOWNLOAD, the echoed name length, the stored file's size); the file's 4096-byte chunks are one stream the relay may yield for a complete reply |
| EndToEnd.AsWrittenRelayForwardsFile | control_panel/src/api/file_routes.py:137-153 | when the node's first segment carries at least the whole response header (the header alone, or the header with the start of the file) and the whole file follows, every stream the relay as written can yield concatenates to the stored file, in chunks of at most 4096 bytes |
| EndToEnd.FullHeaderRelayForwardsFile | control_panel/src/api/file_routes.py:137-153 | the corrected relay's chunks for a complete reply concatenate to the stored file, however the network split it |

## Left out

- Sockets are modelled as the oracle above. `bind`, `listen`, the accept loop, threads and the node's constructor errors are not part of this model; neither are the configured addresses.
- HTTP and FastAPI are modelled as values. That covers dependency injection, authentication (`auth.get_current_user`), the JSON schema and the `StreamingResponse` object. The database is a map. The id, which SQLAlchemy draws from `uuid.uuid4`, and the `uploaded_at` that Postgres assigns are not part of this model, and neither is the order of the listing.
- FileRoutes.DownloadFile: returns the streaming response for every authorised name. Starlette encodes response headers as latin-1. So for a stored name outside latin-1, such as `报告.txt` (which upload accepts), building the `Content-Disposition` header at file_routes.py:160-164 raises, and the route answers 500 without contacting the node.
- `auth_routes.py`, `models.py`, `database.py`, `main.py`, `main.cpp` and the frontend are not part of this model.
- Logging (`std::cout`, `std::cerr`, `print`) is left out: it does not change any state the model keeps.
- StoreCore.StorageNode.ProcessUpload: assumes the file always opens. A failed open (for example a name with a `/` into a missing directory) returns false without storing, and the model does not represent it. The storage directory is a flat map from name bytes, without path semantics. A `filename_len` near 2^32 from the peer can make `std::vector<char> name_buf(filename_len)` throw `bad_alloc`, which nothing catches, so the node terminates; the model reads the name and fails cleanly instead.
- StoreCore.StorageNode.ProcessDownload: assumes that a name which exists can be read in full. A request for `""` or `.` names the storage directory itself, which passes `fs::exists`. `fs::file_size` then throws `filesystem_error`, which nothing in `handleClient` catches, so the whole node terminates. The model instead sends no reply (when the name is not a stored file) or a normal reply. Read errors are not modelled, and neither is the `bad_alloc` that `std::vector<char> name_buf(filename_len)` can throw for a `filename_len` near 2^32, which also terminates the node.
- Net.Socket.Write: a partial `write` (a count smaller than the length asked for, which the node ignores) is not modelled. A write either takes everything or fails. The model's failed write returns -1, after which `SendReply`, `SendContents` and `HandleClient` return false and close the socket. The real node never ignores SIGPIPE: it neither calls `signal(SIGPIPE, SIG_IGN)` nor passes `MSG_NOSIGNAL`. So a `write` at StorageNode.cpp:253 or :260 after the relay has closed can raise SIGPIPE, and that ends the whole node process. The path is reachable: after a short `recv(14)` the relay closes while the node is still writing 4096-byte chunks (see "## Findings"). Neither program sets a time-out either. A peer that stops reading without closing blocks `write` or `sendall` forever, where the model runs out of `room` and reports a failure.
- Net.Socket.Recv: the contract states the bytes returned and the bytes still pending, not how the pending bytes are split into segments afterwards.
- Net.Socket.Read: the contract does not state that the buffer past the copied bytes is unchanged. No caller relies on that.
- FileRoutes.IterFile: the generator is modelled as the list of chunks it yields, in full. Laziness and a client that stops reading early are not modelled. A raised exception becomes the final empty chunk.
- FileRoutes.UploadFile: `file.filename` is taken to be a string, so the case where it is missing is not modelled. The caller's identity is a parameter.
- Strings are sequences of Unicode scalar values, so lone surrogates (which make `encode('utf-8')` raise) cannot occur.
- TestClient.SendFile: `os.path.getsize`, creating the file and failures to open it are not modelled. The file's size is that of the byte source.
- TestClient.TestFileContents: `open(FILE_TO_SEND, "w")` writes in the locale's encoding, which is not modelled. The text is ASCII, so every ASCII-compatible encoding writes the same bytes, and the model uses UTF-8. The text contains no newline, so newline translation does not matter.
- Integers are unbounded Dafny values. Where the C++ or Python code has a width, it is a subset type (`uint32`, `uint64`), and `struct.pack`'s range check is explicit.

## Findings

| source | as written | input that shows it | evidently intended | confidence | as-written member | corrected member |
|---|---|---|---|---|---|---|
| control_panel/src/api/file_routes.py:138-140 | the response header is read with one `sock.recv(14)`; a shorter return raises "Storage node did not respond" and the download yields an empty body | a download of `report.txt` whose correct reply (a 14-byte header declaring 3 bytes, then `abc`) arrives as a 7-byte segment and then the remaining 10 bytes | read until all 14 header bytes have arrived (as `readExact` does on the node), then stream the body | not executed; TCP may split any send, which is rare but possible on loopback | FileRoutes.SplitHeaderAsWritten | FileRoutes.SplitHeaderCorrected |
