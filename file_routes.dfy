/** The control panel's file routes: which stored files a user may list and
    download, the upload relay that streams an uploaded file to the storage node,
    and the download relay (`iterfile`) that streams a stored file back. The
    database is a map from file id to record; the storage node is the peer of the
    relay's socket. */
module FileRoutes {
  import opened Wrappers
  import opened Bytes
  import opened Net
  import opened Streams
  import Protocol
  import Utf8

  const MAGIC: byte := 0x56
  const CMD_UPLOAD: byte := 0x01
  const CMD_DOWNLOAD: byte := 0x02
  const STORAGE_NODE_HOST: string := "127.0.0.1"
  /** `f"{STORAGE_NODE_HOST}:{STORAGE_NODE_PORT}"` with the node's port 9000, the
      address a record stores. */
  const STORAGE_NODE_ADDRESS: string := STORAGE_NODE_HOST + ":9000"

  /** The relay's protocol constants are the storage node's. */
  lemma ConstantsMatchNode()
    ensures MAGIC == Protocol.PROTOCOL_MAGIC
    ensures CMD_UPLOAD == Protocol.CommandByte(Protocol.UPLOAD)
    ensures CMD_DOWNLOAD == Protocol.CommandByte(Protocol.DOWNLOAD)
  {
  }

  datatype User = User(id: string, role: string)

  /** A row of the files table, without the columns filled in at insert: the id,
      which SQLAlchemy draws from `uuid.uuid4` and which keys the map of records,
      and the upload time, which Postgres assigns. */
  datatype FileRecord = FileRecord(filename: string, sizeBytes: nat, ownerId: string,
                                   storageNodeIp: string, storagePath: string)

  predicate IsAdmin(user: User)
  {
    user.role == "ADMIN"
  }

  // ---------------------------------------------------------------------------
  // Listing and access control
  // ---------------------------------------------------------------------------

  /** `list_files`: an administrator sees every record, anyone else exactly the
      records they own. */
  function ListFiles(records: map<string, FileRecord>, user: User): (r: map<string, FileRecord>)
    ensures forall id :: id in r <==> id in records && (IsAdmin(user) || records[id].ownerId == user.id)
    ensures forall id :: id in r ==> r[id] == records[id]
  {
    map id | id in records && (IsAdmin(user) || records[id].ownerId == user.id) :: records[id]
  }

  /** The checks `download_file` makes before it contacts the storage node: 404
      for an unknown id, 403 unless the caller owns the file or is an
      administrator, and otherwise the record. */
  function Authorize(records: map<string, FileRecord>, fileId: string, user: User): (r: Result<FileRecord, int>)
    ensures r.Ok? <==> fileId in records && (records[fileId].ownerId == user.id || IsAdmin(user))
    ensures r.Ok? ==> r.value == records[fileId]
    ensures r.Err? ==> r.error == (if fileId in records then 403 else 404)
  {
    if fileId !in records then Err(404)
    else if records[fileId].ownerId != user.id && !IsAdmin(user) then Err(403)
    else Ok(records[fileId])
  }

  /** A user may download exactly the files the listing shows them. */
  lemma DownloadableIffListed(records: map<string, FileRecord>, fileId: string, user: User)
    ensures Authorize(records, fileId, user).Ok? <==> fileId in ListFiles(records, user)
    ensures Authorize(records, fileId, user).Ok? ==> Authorize(records, fileId, user).value == ListFiles(records, user)[fileId]
  {
  }

  // ---------------------------------------------------------------------------
  // Upload relay
  // ---------------------------------------------------------------------------

  datatype UploadResponse = Uploaded(record: FileRecord) | UploadFailed(status: int)

  /** The record `upload_file` stores for an upload that reached the node. */
  function NewRecord(filename: string, size: nat, user: User): FileRecord
  {
    FileRecord(filename, size, user.id, STORAGE_NODE_ADDRESS, "./data/" + filename)
  }

  /** Once its record is stored under a new id, an upload shows in its uploader's
      listing, the uploader may download it, and no one else who is not an
      administrator sees it. */
  lemma UploaderSeesUpload(records: map<string, FileRecord>, fileId: string, filename: string, size: nat,
                           user: User, other: User)
    requires fileId !in records
    ensures var after := records[fileId := NewRecord(filename, size, user)];
      && fileId in ListFiles(after, user)
      && Authorize(after, fileId, user) == Ok(NewRecord(filename, size, user))
      && (fileId in ListFiles(after, other) <==> other.id == user.id || IsAdmin(other))
      && (forall id :: id in records ==> (id in ListFiles(after, other) <==> id in ListFiles(records, other)))
  {
  }

  /** `upload_file`: measures the upload by seeking to its end, connects, sends the
      header, the UTF-8 name and the content in 4096-byte reads, and only then
      answers with the new record. A refused connection is a 503; any other
      failure (connecting, a size out of the header's range, a failed send) is a
      500 and stores no record. The socket is closed on every path. */
  method UploadFile(file: ByteSource, filename: string, user: User, sock: Socket) returns (resp: UploadResponse)
    requires file.Valid() && sock.phase == Unconnected
    modifies file`cursor, sock`phase, sock`sent, sock`room
    ensures sock.phase == Closed
    ensures sock.endpoint == Refusing ==> resp == UploadFailed(503) && sock.sent == old(sock.sent)
    ensures sock.endpoint == Unreachable ==> resp == UploadFailed(500) && sock.sent == old(sock.sent)
    ensures var name := Utf8.Encode(filename);
      var header := Protocol.Pack(MAGIC, CMD_UPLOAD, |name|, |file.data|);
      sock.endpoint == Listening ==>
        if header.Err? then resp == UploadFailed(500) && sock.sent == old(sock.sent)
        else
          && (resp.Uploaded? <==> |header.value| + |name| + |file.data| <= old(sock.room))
          && (resp.Uploaded? ==> resp.record == NewRecord(filename, |file.data|, user))
          && (resp.Uploaded? ==> sock.sent == old(sock.sent) + [header.value, name] + ChunksOf(file.data, CHUNK_SIZE))
          && (resp.Uploaded? ==> sock.Outbound() == old(sock.Outbound()) + header.value + name + file.data)
          && (resp.UploadFailed? ==> resp.status == 500)
          && IsPrefix(sock.Outbound(), old(sock.Outbound()) + header.value + name + file.data)
  {
    file.SeekEnd();
    var fileSize := file.Tell();
    file.Rewind();
    var err := sock.Connect();
    if err == Some(ConnectionRefused) {
      resp := UploadFailed(503);
    } else if err.Some? {
      resp := UploadFailed(500);
    } else {
      resp := UploadConnected(file, filename, fileSize, user, sock);
    }
    sock.Close();
  }

  /** The body of the `with` block of `upload_file` once connected: a header
      the name and size fit, then the sends. */
  method UploadConnected(file: ByteSource, filename: string, fileSize: nat, user: User, sock: Socket)
    returns (resp: UploadResponse)
    requires file.cursor == 0 && fileSize == |file.data| && sock.phase == Open
    modifies file`cursor, sock`sent, sock`room
    ensures sock.phase == Open
    ensures var name := Utf8.Encode(filename);
      var header := Protocol.Pack(MAGIC, CMD_UPLOAD, |name|, fileSize);
      if header.Err? then resp == UploadFailed(500) && sock.sent == old(sock.sent)
      else
        && (resp.Uploaded? <==> |header.value| + |name| + |file.data| <= old(sock.room))
        && (resp.Uploaded? ==> resp.record == NewRecord(filename, fileSize, user))
        && (resp.Uploaded? ==> sock.sent == old(sock.sent) + [header.value, name] + ChunksOf(file.data, CHUNK_SIZE))
        && (resp.Uploaded? ==> sock.Outbound() == old(sock.Outbound()) + header.value + name + file.data)
        && (resp.UploadFailed? ==> resp.status == 500)
        && IsPrefix(sock.Outbound(), old(sock.Outbound()) + header.value + name + file.data)
  {
    var name := Utf8.Encode(filename);
    var header := Protocol.Pack(MAGIC, CMD_UPLOAD, |name|, fileSize);
    if header.Err? {
      return UploadFailed(500);
    }
    var ok := SendUpload(file, sock, header.value, name);
    resp := if ok then Uploaded(NewRecord(filename, fileSize, user)) else UploadFailed(500);
  }

  // ---------------------------------------------------------------------------
  // Download relay
  // ---------------------------------------------------------------------------

  /** What `iterfile` yields once a full response header `reply` came back and
      `avail` is everything the node sends after it: the first min(declared,
      available) bytes in chunks of at most 4096, and one final empty chunk if the
      node reset the connection before the declared size arrived. */
  ghost predicate StreamsBody(reply: seq<byte>, avail: seq<byte>, resetAtEnd: bool, chunks: seq<seq<byte>>)
    requires |reply| == Protocol.HEADER_SIZE
  {
    var declared := Protocol.Unpack(reply).value.fileSize;
    if resetAtEnd && |avail| < declared then
      && |chunks| > 0 && chunks[|chunks| - 1] == []
      && Flatten(chunks[..|chunks| - 1]) == avail
      && BoundedChunks(chunks[..|chunks| - 1], CHUNK_SIZE)
    else
      && Flatten(chunks) == avail[..Min(declared, |avail|)]
      && BoundedChunks(chunks, CHUNK_SIZE)
  }

  /** The download request a relay puts on the wire: the header and the name in
      full once the node accepts them, a prefix of them if a send fails, nothing
      if it cannot connect or the name is too long for the header. */
  ghost predicate SentRequest(filename: string, endpoint: Endpoint, room: nat,
                              before: seq<seq<byte>>, after: seq<seq<byte>>)
  {
    var name := Utf8.Encode(filename);
    var header := Protocol.Pack(MAGIC, CMD_DOWNLOAD, |name|, 0);
    if endpoint == Listening && header.Ok? then
      && (|header.value| + |name| <= room ==> after == before + [header.value, name])
      && IsPrefix(Flatten(after), Flatten(before) + header.value + name)
    else after == before
  }

  /** The node accepted the whole request, so `iterfile` goes on to the reply. */
  ghost predicate RequestDelivered(filename: string, endpoint: Endpoint, room: nat)
  {
    var name := Utf8.Encode(filename);
    var header := Protocol.Pack(MAGIC, CMD_DOWNLOAD, |name|, 0);
    endpoint == Listening && header.Ok? && |header.value| + |name| <= room
  }

  /** What `iterfile` as written yields for a node whose reply arrives in the
      segments `incoming`: reading the response header with a single 14-byte
      receive, it streams the body only if that one receive returned all 14 bytes,
      and yields a lone empty chunk otherwise. */
  ghost predicate DownloadStream(filename: string, endpoint: Endpoint, room: nat,
                                 incoming: seq<seq<byte>>, resetAtEnd: bool, chunks: seq<seq<byte>>)
  {
    var reply := Arrived(incoming, Protocol.HEADER_SIZE);
    if RequestDelivered(filename, endpoint, room) && |reply| == Protocol.HEADER_SIZE then
      StreamsBody(reply, Flatten(Pending(incoming, Protocol.HEADER_SIZE)), resetAtEnd, chunks)
    else chunks == [[]]
  }

  /** The loop of `iterfile` that forwards the body: receives of at most
      min(remaining, 4096) bytes until `size` bytes arrived or the node closed;
      `failed` when the node reset the connection instead. */
  method ReceiveUpTo(sock: Socket, size: nat) returns (chunks: seq<seq<byte>>, failed: bool)
    requires sock.Valid() && sock.phase == Open
    modifies sock`incoming
    ensures sock.Valid()
    ensures var input := old(sock.Inbound());
      && Flatten(chunks) == input[..Min(size, |input|)]
      && sock.Inbound() == input[Min(size, |input|)..]
      && BoundedChunks(chunks, CHUNK_SIZE)
      && (failed <==> |input| < size && sock.resetAtEnd)
  {
    ghost var input := sock.Inbound();
    ghost var k: nat := 0;
    chunks, failed := [], false;
    var remaining: nat := size;
    while remaining > 0
      invariant Segmented(sock.incoming) && sock.phase == Open && !failed
      invariant k + remaining == size && k <= |input|
      invariant Flatten(chunks) == input[..k] && Flatten(sock.incoming) == input[k..]
      invariant BoundedChunks(chunks, CHUNK_SIZE)
    {
      var chunkSize := if remaining > CHUNK_SIZE then CHUNK_SIZE else remaining;
      var chunk, reset := sock.Recv(chunkSize);
      if reset || chunk == [] {
        assert input[k..] == [];
        failed := reset;
        break;
      }
      ChunksGrow(input, chunks, k, chunk, CHUNK_SIZE);
      chunks, k := chunks + [chunk], k + |chunk|;
      remaining := remaining - |chunk|;
    }
  }

  /** `iterfile`: connects, sends the download request, reads the response header
      with one `recv(14)`, then forwards the body the header declares. Every
      exception ends the stream with an empty chunk; the socket is closed on every
      path. */
  method IterFile(filename: string, sock: Socket) returns (chunks: seq<seq<byte>>)
    requires sock.Valid() && sock.phase == Unconnected
    modifies sock`phase, sock`incoming, sock`sent, sock`room
    ensures sock.phase == Closed
    ensures SentRequest(filename, sock.endpoint, old(sock.room), old(sock.sent), sock.sent)
    ensures DownloadStream(filename, sock.endpoint, old(sock.room), old(sock.incoming), sock.resetAtEnd, chunks)
  {
    var ok := Request(filename, sock);
    if !ok {
      sock.Close();
      return [[]];
    }
    ghost var segs := sock.incoming;
    var reply, failed := sock.Recv(Protocol.HEADER_SIZE);
    if failed || |reply| < Protocol.HEADER_SIZE {
      sock.Close();
      return [[]];
    }
    ArrivedSpec(segs, Protocol.HEADER_SIZE);
    var header := Protocol.Unpack(reply).value;
    var body, reset := ReceiveUpTo(sock, header.fileSize);
    sock.Close();
    chunks := if reset then body + [[]] else body;
    if reset {
      assert chunks[..|chunks| - 1] == body;
    }
  }

  /** Connecting and sending the download request: the part of `iterfile` before
      the reply, shared with the corrected relay below. */
  method Request(filename: string, sock: Socket) returns (ok: bool)
    requires sock.Valid() && sock.phase == Unconnected
    modifies sock`phase, sock`sent, sock`room
    ensures sock.Valid() && sock.incoming == old(sock.incoming)
    ensures ok <==> RequestDelivered(filename, sock.endpoint, old(sock.room))
    ensures ok ==> sock.phase == Open
    ensures SentRequest(filename, sock.endpoint, old(sock.room), old(sock.sent), sock.sent)
  {
    var err := sock.Connect();
    if err.Some? {
      return false;
    }
    var name := Utf8.Encode(filename);
    var header := Protocol.Pack(MAGIC, CMD_DOWNLOAD, |name|, 0);
    if header.Err? {
      return false;
    }
    ok := SendHeaderAndName(sock, header.value, name);
  }

  datatype DownloadResponse = Streaming(disposition: string, body: seq<seq<byte>>) | DownloadFailed(status: int)

  /** `download_file`: the access checks, then a streaming response whose body is
      what `iterfile` yields and whose Content-Disposition names the file. A
      refused request never touches the storage node. */
  method DownloadFile(records: map<string, FileRecord>, fileId: string, user: User, sock: Socket)
    returns (resp: DownloadResponse)
    requires sock.Valid() && sock.phase == Unconnected
    modifies sock`phase, sock`incoming, sock`sent, sock`room
    ensures var access := Authorize(records, fileId, user);
      if access.Err? then
        resp == DownloadFailed(access.error) && sock.phase == Unconnected && sock.sent == old(sock.sent)
      else
        var filename := access.value.filename;
        && resp.Streaming? && resp.disposition == "attachment; filename=" + filename
        && sock.phase == Closed
        && SentRequest(filename, sock.endpoint, old(sock.room), old(sock.sent), sock.sent)
        && DownloadStream(filename, sock.endpoint, old(sock.room), old(sock.incoming), sock.resetAtEnd, resp.body)
  {
    var access := Authorize(records, fileId, user);
    if access.Err? {
      return DownloadFailed(access.error);
    }
    var filename := access.value.filename;
    var body := IterFile(filename, sock);
    resp := Streaming("attachment; filename=" + filename, body);
  }

  // ---------------------------------------------------------------------------
  // The response header read in one receive
  // ---------------------------------------------------------------------------

  /** What the relay yields when it reads the response header to its full 14
      bytes, across segments, before forwarding the body: it depends only on the
      byte stream the node sends, not on how the network cut it up. */
  ghost predicate DownloadStreamFullHeader(filename: string, endpoint: Endpoint, room: nat,
                                           input: seq<byte>, resetAtEnd: bool, chunks: seq<seq<byte>>)
  {
    if RequestDelivered(filename, endpoint, room) && |input| >= Protocol.HEADER_SIZE then
      StreamsBody(input[..Protocol.HEADER_SIZE], input[Protocol.HEADER_SIZE..], resetAtEnd, chunks)
    else chunks == [[]]
  }

  /** `iterfile` with the response header read by the same receive loop as the
      body, so that a header split across segments is still read whole. */
  method IterFileFullHeader(filename: string, sock: Socket) returns (chunks: seq<seq<byte>>)
    requires sock.Valid() && sock.phase == Unconnected
    modifies sock`phase, sock`incoming, sock`sent, sock`room
    ensures sock.phase == Closed
    ensures SentRequest(filename, sock.endpoint, old(sock.room), old(sock.sent), sock.sent)
    ensures DownloadStreamFullHeader(filename, sock.endpoint, old(sock.room), old(sock.Inbound()), sock.resetAtEnd, chunks)
  {
    var ok := Request(filename, sock);
    if !ok {
      sock.Close();
      return [[]];
    }
    ghost var input := sock.Inbound();
    var parts, failed := ReceiveUpTo(sock, Protocol.HEADER_SIZE);
    var reply := Flatten(parts);
    if failed || |reply| < Protocol.HEADER_SIZE {
      sock.Close();
      return [[]];
    }
    var header := Protocol.Unpack(reply).value;
    var body, reset := ReceiveUpTo(sock, header.fileSize);
    sock.Close();
    chunks := if reset then body + [[]] else body;
    if reset {
      assert chunks[..|chunks| - 1] == body;
    }
  }

  /** A node's correct reply to a download of "report.txt": a 14-byte header
      declaring 3 bytes, then "abc". */
  function SplitReply(): (r: seq<byte>)
    ensures |r| == Protocol.HEADER_SIZE + 3
    ensures r[..Protocol.HEADER_SIZE] == Protocol.Serialize(Protocol.FileHeader(MAGIC, CMD_DOWNLOAD, 10, 3))
    ensures r[Protocol.HEADER_SIZE..] == [0x61, 0x62, 0x63]
  {
    Protocol.Serialize(Protocol.FileHeader(MAGIC, CMD_DOWNLOAD, 10, 3)) + [0x61, 0x62, 0x63]
  }

  /** The network delivers that reply as a 7-byte segment and the rest. */
  function SplitSegments(): (r: seq<seq<byte>>)
    ensures Segmented(r) && Flatten(r) == SplitReply()
    ensures |Arrived(r, Protocol.HEADER_SIZE)| == 7
  {
    var reply := SplitReply();
    var r := [reply[..7], reply[7..]];
    assert r[1..] == [reply[7..]] && r[1..][1..] == [];
    assert Flatten(r[1..]) == reply[7..] + Flatten([]);
    assert Flatten(r) == reply[..7] + reply[7..];
    assert reply[..7] + reply[7..] == reply;
    r
  }

  /** The name "report.txt" fits a download request. */
  lemma ReportNameFits()
    ensures Protocol.Pack(MAGIC, CMD_DOWNLOAD, |Utf8.Encode("report.txt")|, 0).Ok?
  {
    Utf8.EncodeLength("report.txt");
  }

  /** The relay as written streams nothing back for the split reply. */
  method SplitHeaderAsWritten() returns (chunks: seq<seq<byte>>)
    ensures chunks == [[]]
  {
    ReportNameFits();
    var sock := new Socket.Client(Listening, SplitSegments(), false, 1000);
    chunks := IterFile("report.txt", sock);
  }

  /** The corrected relay streams "abc" for the same reply. */
  method SplitHeaderCorrected() returns (chunks: seq<seq<byte>>)
    ensures Flatten(chunks) == [0x61, 0x62, 0x63]
  {
    ReportNameFits();
    var sock := new Socket.Client(Listening, SplitSegments(), false, 1000);
    chunks := IterFileFullHeader("report.txt", sock);
  }
}
