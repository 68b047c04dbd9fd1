/** The C++ storage node: the byte-order helpers, the header decode and routing
    of `handleClient`, `readExact`, and the upload and download handlers. The
    storage directory is abstracted as a map from file-name bytes to contents;
    the host's byte order is a parameter of the node. */
module StoreCore {
  import opened Wrappers
  import opened Bytes
  import opened Protocol
  import opened Net
  import Utf8

  /** Size of the node's transfer buffers. */
  const BUFFER_SIZE: nat := 4096

  /** The byte '.'. */
  const DOT: byte := 0x2E

  // ---------------------------------------------------------------------------
  // Byte order
  // ---------------------------------------------------------------------------

  /** `ntoh64` as written: the result's memory bytes are the argument's memory
      bytes in reverse order. */
  function Ntoh64(input: uint64, littleEndian: bool): (r: uint64)
    ensures HostBytes(r, 8, littleEndian) == Reverse(HostBytes(input, 8, littleEndian))
  {
    Pow256Widths();
    HostBytesValue(Reverse(HostBytes(input, 8, littleEndian)), littleEndian);
    HostValue(Reverse(HostBytes(input, 8, littleEndian)), littleEndian)
  }

  /** `ntoh64` reverses the 8 bytes of its argument's value, on either host. */
  lemma Ntoh64Reverses(x: uint64, littleEndian: bool)
    ensures EncodeBE(Ntoh64(x, littleEndian), 8) == Reverse(EncodeBE(x, 8))
  {
    Pow256Widths();
    var e := EncodeBE(x, 8);
    if littleEndian {
      ReverseReverse(e);
      EncodeDecodeBE(Reverse(Reverse(Reverse(e))));
      ReverseReverse(Reverse(e));
    } else {
      EncodeDecodeBE(Reverse(e));
    }
  }

  /** Applying `ntoh64` twice is the identity. */
  lemma Ntoh64Involutive(x: uint64, littleEndian: bool)
    ensures Ntoh64(Ntoh64(x, littleEndian), littleEndian) == x
  {
    Pow256Widths();
    var y := Ntoh64(x, littleEndian);
    Ntoh64Reverses(x, littleEndian);
    Ntoh64Reverses(y, littleEndian);
    ReverseReverse(EncodeBE(x, 8));
    DecodeEncodeBE(Ntoh64(y, littleEndian), 8);
    DecodeEncodeBE(x, 8);
  }

  /** `ntohl`: the host value of a 32-bit integer whose memory holds big-endian bytes. */
  function Ntohl(netlong: uint32, littleEndian: bool): (r: uint32)
    ensures EncodeBE(r, 4) == HostBytes(netlong, 4, littleEndian)
  {
    Pow256Widths();
    EncodeDecodeBE(HostBytes(netlong, 4, littleEndian));
    DecodeBE(HostBytes(netlong, 4, littleEndian))
  }

  /** `htonl`: the 32-bit integer whose memory holds the big-endian bytes of the argument. */
  function Htonl(hostlong: uint32, littleEndian: bool): (r: uint32)
    ensures HostBytes(r, 4, littleEndian) == EncodeBE(hostlong, 4)
  {
    Pow256Widths();
    HostBytesValue(EncodeBE(hostlong, 4), littleEndian);
    HostValue(EncodeBE(hostlong, 4), littleEndian)
  }

  /** `handleClient`'s decode of a received header: the two leading bytes, then
      the name length copied out and passed through `ntohl`, then the file size
      copied out and passed through `ntoh64` on a little-endian host only. On
      either host the fields are the big-endian values at their wire offsets. */
  function DecodeHeader(headerBuf: seq<byte>, littleEndian: bool): (h: FileHeader)
    requires |headerBuf| == HEADER_SIZE
    ensures h == Deserialize(headerBuf)
  {
    Pow256Widths();
    var nameLenNet: uint32 := HostValue(headerBuf[2..6], littleEndian);
    var fileSizeNet: uint64 := HostValue(headerBuf[6..14], littleEndian);
    var nameLen := Ntohl(nameLenNet, littleEndian);
    var fileSize := if littleEndian then Ntoh64(fileSizeNet, littleEndian) else fileSizeNet;
    HostBytesValue(headerBuf[2..6], littleEndian);
    HostBytesValue(headerBuf[6..14], littleEndian);
    DecodeEncodeBE(nameLen, 4);
    EncodeDecodeBE(headerBuf[2..6]);
    if littleEndian then
      ReverseReverse(headerBuf[6..14]);
      assert fileSize == DecodeBE(headerBuf[6..14]);
      FileHeader(headerBuf[0], headerBuf[1], nameLen, fileSize)
    else
      FileHeader(headerBuf[0], headerBuf[1], nameLen, fileSize)
  }

  /** `processDownload`'s response header: PROTOCOL_MAGIC, DOWNLOAD, the request's
      name length through `htonl`, then the file size through `ntoh64` on a
      little-endian host, each copied into place. On either host these are the
      wire image of the header that echoes the request's name length. */
  function ResponseHeader(filenameLen: uint32, fileSize: uint64, littleEndian: bool): (r: seq<byte>)
    ensures r == Serialize(FileHeader(PROTOCOL_MAGIC, CommandByte(DOWNLOAD), filenameLen, fileSize))
  {
    Pow256Widths();
    var netNameLen := Htonl(filenameLen, littleEndian);
    var netFileSize := if littleEndian then Ntoh64(fileSize, littleEndian) else fileSize;
    Ntoh64Reverses(fileSize, littleEndian);
    ReverseReverse(EncodeBE(fileSize, 8));
    [PROTOCOL_MAGIC, CommandByte(DOWNLOAD)] + HostBytes(netNameLen, 4, littleEndian) + HostBytes(netFileSize, 8, littleEndian)
  }

  // ---------------------------------------------------------------------------
  // The path traversal check
  // ---------------------------------------------------------------------------

  /** `filename.find("..")`: the first index of two adjacent dots, or None for npos. */
  function FindDotDot(name: seq<byte>): (r: Option<nat>)
    ensures r.Some? ==> r.value + 1 < |name| && name[r.value] == DOT && name[r.value + 1] == DOT
    ensures r.Some? ==> forall j :: 0 <= j < r.value ==> !(name[j] == DOT && name[j + 1] == DOT)
    ensures r.None? <==> !Utf8.HasPair(name, DOT, DOT)
    decreases |name|
  {
    if |name| < 2 then None
    else if name[0] == DOT && name[1] == DOT then Some(0)
    else match FindDotDot(name[1..])
      case Some(i) => Some(i + 1)
      case None => None
  }

  /** A name sent by the control panel is rejected by the node exactly when the
      Python string contains "..". */
  lemma RejectsDotDotNames(filename: string)
    ensures FindDotDot(Utf8.Encode(filename)).Some? <==> Utf8.HasCharPair(filename, '.', '.')
  {
    Utf8.EncodeKeepsAsciiPairs(filename, '.', '.');
  }

  // ---------------------------------------------------------------------------
  // What the handlers do, as functions of the bytes the client sent
  // ---------------------------------------------------------------------------

  /** The name of the request, once its bytes have all arrived and it has no "..". */
  predicate AcceptedName(request: seq<byte>, filenameLen: nat)
  {
    filenameLen <= |request| && FindDotDot(request[..filenameLen]).None?
  }

  /** The storage directory after `processUpload` consumed `request` (the bytes
      after the header): an accepted name is opened for writing (truncated) and
      receives the body bytes that arrived, at most `fileSize` of them. */
  function Stored(files: map<seq<byte>, seq<byte>>, request: seq<byte>, filenameLen: nat, fileSize: nat): map<seq<byte>, seq<byte>>
  {
    if AcceptedName(request, filenameLen) then
      files[request[..filenameLen] := request[filenameLen..Min(|request|, filenameLen + fileSize)]]
    else files
  }

  /** A successful upload stores exactly the `fileSize` bytes after the name. */
  lemma StoredOnSuccess(files: map<seq<byte>, seq<byte>>, request: seq<byte>, filenameLen: nat, fileSize: nat)
    requires AcceptedName(request, filenameLen) && filenameLen + fileSize <= |request|
    ensures var s := Stored(files, request, filenameLen, fileSize);
      request[..filenameLen] in s && |s[request[..filenameLen]]| == fileSize
      && request == request[..filenameLen] + s[request[..filenameLen]] + request[filenameLen + fileSize..]
  {
  }

  /** What `processDownload` sends back for `request` (the bytes after the
      header): for an accepted name of a stored file, the response header and the
      contents in BUFFER_SIZE writes, cut short if the peer stops accepting;
      nothing otherwise. `ok` tells whether all of it went out. */
  ghost predicate Replied(files: map<seq<byte>, seq<byte>>, request: seq<byte>, filenameLen: uint32,
                          littleEndian: bool, room: nat, before: seq<seq<byte>>, after: seq<seq<byte>>, ok: bool)
    requires forall name :: name in files ==> |files[name]| < TWO_TO_64
  {
    if AcceptedName(request, filenameLen) && request[..filenameLen] in files then
      var content := files[request[..filenameLen]];
      var header := ResponseHeader(filenameLen, |content|, littleEndian);
      && (ok <==> |header| + |content| <= room)
      && (ok ==> after == before + [header] + ChunksOf(content, BUFFER_SIZE))
      && IsPrefix(Flatten(after), Flatten(before) + header + content)
    else
      !ok && after == before
  }

  /** What the node does with one connection. */
  datatype Route =
    | HeaderIncomplete
    | BadMagic
    | Upload(filenameLen: uint32, fileSize: uint64, ok: bool)
    | Download(filenameLen: uint32, ok: bool)
    | UnknownCommand(command: byte)

  class StorageNode {
    const littleEndian: bool
    /** The storage directory: file name bytes to file contents. */
    var files: map<seq<byte>, seq<byte>>

    /** Every stored file has a size `fs::file_size` can report as a uint64. */
    ghost predicate Valid()
      reads this
    {
      forall name :: name in files ==> |files[name]| < TWO_TO_64
    }

    constructor (littleEndian: bool, files: map<seq<byte>, seq<byte>>)
      requires forall name :: name in files ==> |files[name]| < TWO_TO_64
      ensures Valid() && this.littleEndian == littleEndian && this.files == files
    {
      this.littleEndian := littleEndian;
      this.files := files;
    }

    /** `readExact`: true exactly when `size` bytes arrived, and then they are in
        `buffer` and consumed; false when the stream ended first. Each read asks
        for at most the part of `buffer` still unfilled. */
    method ReadExact(sock: Socket, buffer: array<byte>, size: nat) returns (ok: bool)
      requires sock.Valid() && sock.phase == Open && size <= buffer.Length
      modifies sock`incoming, buffer
      ensures sock.Valid()
      ensures ok <==> size <= |old(sock.Inbound())|
      ensures ok ==> buffer[..size] == old(sock.Inbound())[..size] && sock.Inbound() == old(sock.Inbound())[size..]
      ensures !ok ==> sock.Inbound() == []
    {
      ghost var input := sock.Inbound();
      var totalRead: nat := 0;
      while totalRead < size
        invariant Segmented(sock.incoming) && totalRead <= size && totalRead <= |input|
        invariant buffer[..totalRead] == input[..totalRead]
        invariant Flatten(sock.incoming) == input[totalRead..]
        decreases size - totalRead
      {
        var bytesRead := sock.Read(buffer, totalRead, size - totalRead);
        if bytesRead <= 0 {
          return false;
        }
        FillPrefix(buffer[..], input, totalRead, bytesRead);
        totalRead := totalRead + bytesRead;
      }
      return true;
    }

    /** The first step of both handlers: `readExact` into a `filenameLen`-byte
        buffer, then the name built from it; None when the stream ended first. */
    method ReceiveName(sock: Socket, filenameLen: uint32) returns (name: Option<seq<byte>>)
      requires sock.Valid() && sock.phase == Open
      modifies sock`incoming
      ensures sock.Valid()
      ensures name.Some? <==> filenameLen <= |old(sock.Inbound())|
      ensures name.Some? ==>
        name.value == old(sock.Inbound())[..filenameLen] && sock.Inbound() == old(sock.Inbound())[filenameLen..]
    {
      var nameBuf := new byte[filenameLen];
      var ok := ReadExact(sock, nameBuf, filenameLen);
      if !ok {
        return None;
      }
      return Some(nameBuf[..]);
    }

    /** `processUpload`: reads the name, rejects "..", opens the file and copies
        `fileSize` body bytes into it. True only when all of them arrived; a read
        that ends the stream early returns false and leaves the bytes already
        written in the file. */
    method ProcessUpload(sock: Socket, filenameLen: uint32, fileSize: uint64) returns (ok: bool)
      requires Valid() && sock.Valid() && sock.phase == Open
      modifies sock`incoming, this`files
      ensures Valid() && sock.Valid()
      ensures ok <==> AcceptedName(old(sock.Inbound()), filenameLen) && filenameLen + fileSize <= |old(sock.Inbound())|
      ensures files == Stored(old(files), old(sock.Inbound()), filenameLen, fileSize)
      ensures ok ==> sock.Inbound() == old(sock.Inbound())[filenameLen + fileSize..]
    {
      ghost var request := sock.Inbound();
      var filename := ReceiveName(sock, filenameLen);
      if filename.None? || FindDotDot(filename.value).Some? {
        return false;
      }
      ok := ReceiveFile(sock, filename.value, fileSize);
      assert request[filenameLen..][..Min(|request| - filenameLen, fileSize)]
          == request[filenameLen..Min(|request|, filenameLen + fileSize)];
    }

    /** `processUpload`'s receive step: the file is opened (truncated), the
        body is read into it, and it is closed, on either exit. */
    method ReceiveFile(sock: Socket, filename: seq<byte>, fileSize: uint64) returns (ok: bool)
      requires Valid() && sock.Valid() && sock.phase == Open
      modifies sock`incoming, this`files
      ensures Valid() && sock.Valid()
      ensures ok <==> fileSize <= |old(sock.Inbound())|
      ensures files == old(files)[filename := old(sock.Inbound())[..Min(|old(sock.Inbound())|, fileSize)]]
      ensures ok ==> sock.Inbound() == old(sock.Inbound())[fileSize..]
    {
      var written;
      written, ok := ReceiveBody(sock, fileSize);
      files := files[filename := written];
    }

    /** `processUpload`'s receive loop: each read asks for min(remaining,
        BUFFER_SIZE) bytes and its bytes are appended to the file (`written`);
        `remaining` drops by the count read, and a read of 0 or -1 ends the
        upload with false. */
    method ReceiveBody(sock: Socket, fileSize: uint64) returns (written: seq<byte>, ok: bool)
      requires sock.Valid() && sock.phase == Open
      modifies sock`incoming
      ensures sock.Valid()
      ensures ok <==> fileSize <= |old(sock.Inbound())|
      ensures written == old(sock.Inbound())[..Min(|old(sock.Inbound())|, fileSize)]
      ensures ok ==> sock.Inbound() == old(sock.Inbound())[fileSize..]
    {
      ghost var body := sock.Inbound();
      var buffer := new byte[BUFFER_SIZE];
      written := [];
      var remaining: nat := fileSize;
      ghost var k: nat := 0;
      while remaining > 0
        invariant Segmented(sock.incoming) && sock.phase == Open
        invariant k + remaining == fileSize && k <= |body|
        invariant written == body[..k] && Flatten(sock.incoming) == body[k..]
        decreases remaining
      {
        var toRead := if remaining < BUFFER_SIZE then remaining else BUFFER_SIZE;
        var bytesRead := sock.Read(buffer, 0, toRead);
        if bytesRead <= 0 {
          return written, false;
        }
        GrowPrefix(body, k, buffer[..bytesRead]);
        written := written + buffer[..bytesRead];
        remaining := remaining - bytesRead;
        k := k + bytesRead;
      }
      return written, true;
    }

    /** `processDownload`: reads the name, rejects "..", returns before writing
        anything when the file is missing, then writes the response header and
        the contents. */
    method ProcessDownload(sock: Socket, filenameLen: uint32) returns (ok: bool)
      requires Valid() && sock.Valid() && sock.phase == Open
      modifies sock`incoming, sock`sent, sock`room
      ensures sock.Valid()
      ensures Replied(files, old(sock.Inbound()), filenameLen, littleEndian, old(sock.room), old(sock.sent), sock.sent, ok)
    {
      var filename := ReceiveName(sock, filenameLen);
      if filename.None? || FindDotDot(filename.value).Some? {
        return false;
      }
      if filename.value !in files {
        return false;
      }
      var content := files[filename.value];
      var header := ResponseHeader(filenameLen, |content|, littleEndian);
      ok := SendReply(sock, header, content);
    }

    /** `processDownload`'s writes: the header, then (only if it went out) the contents. */
    method SendReply(sock: Socket, header: seq<byte>, content: seq<byte>) returns (ok: bool)
      requires sock.phase == Open
      modifies sock`sent, sock`room
      ensures ok <==> |header| + |content| <= old(sock.room)
      ensures ok ==> sock.sent == old(sock.sent) + [header] + ChunksOf(content, BUFFER_SIZE)
      ensures ok ==> sock.Outbound() == old(sock.Outbound()) + header + content
      ensures IsPrefix(sock.Outbound(), old(sock.Outbound()) + header + content)
    {
      ghost var base := sock.sent;
      var written := sock.Write(header);
      if written < 0 {
        FlattenSnoc(base, header[..old(sock.room)]);
        assert (header + content)[..old(sock.room)] == header[..old(sock.room)];
        return false;
      }
      FlattenSnoc(base, header);
      ok := SendContents(sock, content);
      assert Flatten(base) + header + content == Flatten(base + [header]) + content;
    }

    /** `processDownload`'s send loop: `infile.read(buffer, BUFFER_SIZE)` leaves
        `gcount` bytes, written while `gcount` is positive; a failed write ends the
        download with false. */
    method SendContents(sock: Socket, content: seq<byte>) returns (ok: bool)
      requires sock.phase == Open
      modifies sock`sent, sock`room
      ensures ok <==> |content| <= old(sock.room)
      ensures ok ==> sock.sent == old(sock.sent) + ChunksOf(content, BUFFER_SIZE)
      ensures ok ==> sock.Outbound() == old(sock.Outbound()) + content
      ensures IsPrefix(sock.Outbound(), old(sock.Outbound()) + content)
    {
      ghost var base := sock.sent;
      var pos := 0;
      var gcount := Min(BUFFER_SIZE, |content|);
      ChunksOfSpec(content, BUFFER_SIZE);
      while gcount > 0
        invariant 0 <= pos <= |content|
        invariant pos + gcount <= |content| && gcount == Min(BUFFER_SIZE, |content| - pos)
        invariant sock.phase == Open
        invariant pos <= old(sock.room) && sock.room == old(sock.room) - pos
        invariant base + ChunksOf(content, BUFFER_SIZE) == sock.sent + ChunksOf(content[pos..], BUFFER_SIZE)
        invariant sock.Outbound() == Flatten(base) + content[..pos]
        decreases |content| - pos
      {
        var chunk := content[pos..pos + gcount];
        ghost var before, roomBefore := sock.sent, sock.room;
        var w := sock.Write(chunk);
        if w < 0 {
          assert chunk[..roomBefore] == content[pos..pos + roomBefore];
          ChunksBreakOff(content, base, before, pos, roomBefore);
          return false;
        }
        ChunksAdvance(content, BUFFER_SIZE, base, before, pos);
        pos := pos + gcount;
        gcount := Min(BUFFER_SIZE, |content| - pos);
      }
      assert content[pos..] == [];
      assert content[..pos] == content;
      return true;
    }

    /** `handleClient`: reads the 14-byte header, drops the connection on a short
        header or a wrong magic byte, decodes the fields, runs the handler the
        command names (none for an unknown command) and closes the socket on
        every path. */
    method HandleClient(sock: Socket) returns (route: Route)
      requires Valid() && sock.Valid() && sock.phase == Open
      modifies sock, this
      ensures sock.phase == Closed && Valid()
      ensures var input := old(sock.Inbound());
        if |input| < HEADER_SIZE then route == HeaderIncomplete && files == old(files) && sock.sent == old(sock.sent)
        else
          var h := Deserialize(input[..HEADER_SIZE]);
          var request := input[HEADER_SIZE..];
          if h.magic != PROTOCOL_MAGIC then route == BadMagic && files == old(files) && sock.sent == old(sock.sent)
          else if h.command == CommandByte(UPLOAD) then
            && route.Upload? && route.filenameLen == h.filenameLen && route.fileSize == h.fileSize
            && (route.ok <==> AcceptedName(request, h.filenameLen) && h.filenameLen + h.fileSize <= |request|)
            && files == Stored(old(files), request, h.filenameLen, h.fileSize)
            && sock.sent == old(sock.sent)
          else if h.command == CommandByte(DOWNLOAD) then
            && route.Download? && route.filenameLen == h.filenameLen && files == old(files)
            && Replied(files, request, h.filenameLen, littleEndian, old(sock.room), old(sock.sent), sock.sent, route.ok)
          else route == UnknownCommand(h.command) && files == old(files) && sock.sent == old(sock.sent)
    {
      var headerBuf := new byte[HEADER_SIZE];
      var ok := ReadExact(sock, headerBuf, HEADER_SIZE);
      if !ok {
        sock.Close();
        return HeaderIncomplete;
      }
      var magic := headerBuf[0];
      var command := headerBuf[1];
      if magic != PROTOCOL_MAGIC {
        sock.Close();
        return BadMagic;
      }
      assert headerBuf[..] == headerBuf[..HEADER_SIZE];
      var h := DecodeHeader(headerBuf[..], littleEndian);
      if command == CommandByte(UPLOAD) {
        var done := ProcessUpload(sock, h.filenameLen, h.fileSize);
        route := Upload(h.filenameLen, h.fileSize, done);
      } else if command == CommandByte(DOWNLOAD) {
        var done := ProcessDownload(sock, h.filenameLen);
        route := Download(h.filenameLen, done);
      } else {
        route := UnknownCommand(command);
      }
      sock.Close();
    }
  }

}
