/** The two sides of the VaultMesh link together: what the control panel's
    relays put on the wire is what the storage node's handlers read, and what
    the node sends back is what the relay forwards. */
module EndToEnd {
  import opened Wrappers
  import opened Bytes
  import opened Protocol
  import opened Streams
  import Utf8
  import StoreCore
  import FileRoutes

  /** The bytes `upload_file` sends for `filename` and `data` when every send
      goes through: header, UTF-8 name, content. */
  function UploadWire(filename: string, data: seq<byte>): (r: seq<byte>)
    requires Pack(FileRoutes.MAGIC, FileRoutes.CMD_UPLOAD, |Utf8.Encode(filename)|, |data|).Ok?
    ensures |r| == HEADER_SIZE + |Utf8.Encode(filename)| + |data|
  {
    Pack(FileRoutes.MAGIC, FileRoutes.CMD_UPLOAD, |Utf8.Encode(filename)|, |data|).value + Utf8.Encode(filename) + data
  }

  /** An upload the relay sends in full is routed by the node to `processUpload`
      with the name length and size the relay packed; a name without ".." is
      accepted and the node stores exactly the uploaded bytes under the UTF-8
      name, while a name with ".." leaves the storage directory unchanged. */
  lemma UploadReachesNode(files: map<seq<byte>, seq<byte>>, filename: string, data: seq<byte>)
    requires Pack(FileRoutes.MAGIC, FileRoutes.CMD_UPLOAD, |Utf8.Encode(filename)|, |data|).Ok?
    ensures var wire := UploadWire(filename, data);
      var name := Utf8.Encode(filename);
      var h := Deserialize(wire[..HEADER_SIZE]);
      var request := wire[HEADER_SIZE..];
      && h == FileHeader(PROTOCOL_MAGIC, CommandByte(UPLOAD), |name|, |data|)
      && h.filenameLen + h.fileSize <= |request|
      && (StoreCore.AcceptedName(request, h.filenameLen) <==> !Utf8.HasCharPair(filename, '.', '.'))
      && StoreCore.Stored(files, request, h.filenameLen, h.fileSize)
         == if Utf8.HasCharPair(filename, '.', '.') then files else files[name := data]
  {
    var name := Utf8.Encode(filename);
    var header := Pack(FileRoutes.MAGIC, FileRoutes.CMD_UPLOAD, |name|, |data|).value;
    SplitWire(header, name, data);
    StoreCore.RejectsDotDotNames(filename);
    StoredWhole(files, name, data);
  }

  /** A 14-byte header followed by the request bytes. */
  lemma SplitWire(header: seq<byte>, name: seq<byte>, data: seq<byte>)
    requires |header| == HEADER_SIZE
    ensures (header + name + data)[..HEADER_SIZE] == header
    ensures (header + name + data)[HEADER_SIZE..] == name + data
  {
    assert header + name + data == header + (name + data);
  }

  /** `processUpload` on a request that holds exactly the name and the body
      stores the body under the name, unless the name has "..". */
  lemma StoredWhole(files: map<seq<byte>, seq<byte>>, name: seq<byte>, data: seq<byte>)
    ensures StoreCore.AcceptedName(name + data, |name|) <==> StoreCore.FindDotDot(name).None?
    ensures StoreCore.Stored(files, name + data, |name|, |data|)
         == if StoreCore.FindDotDot(name).Some? then files else files[name := data]
  {
    var request := name + data;
    assert request[..|name|] == name;
    assert request[|name|..Min(|request|, |name| + |data|)] == data;
  }

  /** The record `upload_file` stores describes the file the node stored: its
      name, UTF-8 encoded as the relay sent it, is the key of exactly the
      uploaded bytes, and its size is their length. */
  lemma RecordNamesStoredFile(files: map<seq<byte>, seq<byte>>, filename: string, data: seq<byte>, user: FileRoutes.User)
    requires Pack(FileRoutes.MAGIC, FileRoutes.CMD_UPLOAD, |Utf8.Encode(filename)|, |data|).Ok?
    requires !Utf8.HasCharPair(filename, '.', '.')
    ensures var rec := FileRoutes.NewRecord(filename, |data|, user);
      var wire := UploadWire(filename, data);
      var h := Deserialize(wire[..HEADER_SIZE]);
      var stored := StoreCore.Stored(files, wire[HEADER_SIZE..], h.filenameLen, h.fileSize);
      && Utf8.Encode(rec.filename) in stored
      && stored[Utf8.Encode(rec.filename)] == data
      && rec.sizeBytes == |stored[Utf8.Encode(rec.filename)]|
      && rec.ownerId == user.id
  {
    UploadReachesNode(files, filename, data);
  }

  /** The node's response header declares the stored file's size, and a reply
      that carries the whole file lets the relay forward it as the file's
      4096-byte chunks. */
  lemma DownloadReplyForwarded(filenameLen: uint32, content: seq<byte>, littleEndian: bool, resetAtEnd: bool)
    requires |content| < TWO_TO_64
    ensures var reply := StoreCore.ResponseHeader(filenameLen, |content|, littleEndian);
      && Unpack(reply) == Ok(FileHeader(PROTOCOL_MAGIC, CommandByte(DOWNLOAD), filenameLen, |content|))
      && FileRoutes.StreamsBody(reply, content, resetAtEnd, ChunksOf(content, CHUNK_SIZE))
  {
    ChunksOfSpec(content, CHUNK_SIZE);
  }

  /** Whatever chunks the relay as written yields for a delivered request, when
      the node's first segment carries at least the whole response header (the
      header alone, or the header together with the start of the file) and the
      whole file follows, they concatenate to the stored file. */
  lemma AsWrittenRelayForwardsFile(filename: string, room: nat, filenameLen: uint32, content: seq<byte>,
                                   littleEndian: bool, segs: seq<seq<byte>>, resetAtEnd: bool, chunks: seq<seq<byte>>)
    requires |content| < TWO_TO_64
    requires segs != [] && |segs[0]| >= HEADER_SIZE && Net.Segmented(segs)
    requires Flatten(segs) == StoreCore.ResponseHeader(filenameLen, |content|, littleEndian) + content
    requires FileRoutes.RequestDelivered(filename, Net.Listening, room)
    requires FileRoutes.DownloadStream(filename, Net.Listening, room, segs, resetAtEnd, chunks)
    ensures Flatten(chunks) == content
    ensures BoundedChunks(chunks, CHUNK_SIZE)
  {
    var reply := StoreCore.ResponseHeader(filenameLen, |content|, littleEndian);
    Net.ArrivedPrefix(segs, HEADER_SIZE);
    assert (reply + content)[..HEADER_SIZE] == reply;
    assert |Net.Arrived(segs, HEADER_SIZE)| == HEADER_SIZE;
    assert Net.Arrived(segs, HEADER_SIZE) == reply;
    assert (reply + content)[HEADER_SIZE..] == content;
    assert Flatten(Net.Pending(segs, HEADER_SIZE)) == content;
    assert content[..Min(|content|, |content|)] == content;
  }

  /** Whatever chunks the corrected relay yields for a delivered request and a
      complete reply, however the network cut the reply up, they concatenate to
      the stored file. */
  lemma FullHeaderRelayForwardsFile(filename: string, room: nat, filenameLen: uint32, content: seq<byte>,
                                    littleEndian: bool, resetAtEnd: bool, chunks: seq<seq<byte>>)
    requires |content| < TWO_TO_64
    requires FileRoutes.RequestDelivered(filename, Net.Listening, room)
    requires FileRoutes.DownloadStreamFullHeader(filename, Net.Listening, room,
               StoreCore.ResponseHeader(filenameLen, |content|, littleEndian) + content, resetAtEnd, chunks)
    ensures Flatten(chunks) == content
    ensures BoundedChunks(chunks, CHUNK_SIZE)
  {
    var reply := StoreCore.ResponseHeader(filenameLen, |content|, littleEndian);
    var input := reply + content;
    assert input[..HEADER_SIZE] == reply && input[HEADER_SIZE..] == content;
    assert content[..Min(|content|, |content|)] == content;
  }
}
