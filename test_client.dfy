/** The command-line test client: it writes a small text file, then uploads it
    to the storage node with the same header, name and chunked content as the
    control panel's upload relay. The file system is the byte source the client
    reads; its console messages become the outcome of `SendFile`. */
module TestClient {
  import opened Wrappers
  import opened Bytes
  import opened Net
  import opened Streams
  import Protocol
  import Utf8

  const FILE_TO_SEND: string := "test_upload.txt"
  const MAGIC: byte := 0x56
  const CMD_UPLOAD: byte := 0x01

  /** The text `create_test_file` writes, "Hello, VaultMesh! This is a test file
      from the Python Client.", in pieces short enough to check character by
      character. */
  const TEST_TEXT: string := TEXT_1 + TEXT_2 + TEXT_3 + TEXT_4
  const TEXT_1: string := "Hello, VaultMesh! "
  const TEXT_2: string := "This is a test "
  const TEXT_3: string := "file from the "
  const TEXT_4: string := "Python Client."

  /** `os.path.basename` on a POSIX path. */
  function Basename(path: string): string
    decreases |path|
  {
    if path == [] then []
    else if path[|path| - 1] == '/' then []
    else Basename(path[..|path| - 1]) + [path[|path| - 1]]
  }

  /** The base name is the part of the path after its last '/': a suffix with no
      '/' in it, preceded by a '/' unless it is the whole path. */
  lemma BasenameSpec(path: string)
    ensures var r := Basename(path);
      && |r| <= |path| && r == path[|path| - |r|..]
      && (forall i :: 0 <= i < |r| ==> r[i] != '/')
      && (|r| < |path| ==> path[|path| - |r| - 1] == '/')
  {
    BasenameSuffix(path);
    BasenameNoSlash(path);
  }

  lemma {:induction false} BasenameSuffix(path: string)
    ensures var r := Basename(path);
      && |r| <= |path| && r == path[|path| - |r|..]
      && (|r| < |path| ==> path[|path| - |r| - 1] == '/')
    decreases |path|
  {
    if path != [] && path[|path| - 1] != '/' {
      var init := path[..|path| - 1];
      BasenameSuffix(init);
      var r := Basename(init);
      SuffixSnoc(path, |r|);
    }
  }

  /** The last j + 1 characters of s are its last j but one, then its last. */
  lemma SuffixSnoc(s: string, j: nat)
    requires j < |s|
    ensures s[|s| - j - 1..] == s[..|s| - 1][|s| - 1 - j..] + [s[|s| - 1]]
  {
  }

  lemma {:induction false} BasenameNoSlash(path: string)
    ensures forall i :: 0 <= i < |Basename(path)| ==> Basename(path)[i] != '/'
    decreases |path|
  {
    if path != [] && path[|path| - 1] != '/' {
      BasenameNoSlash(path[..|path| - 1]);
    }
  }

  /** The file to send has no directory part, so it is sent under its own name. */
  lemma FileToSendIsBasename()
    ensures Basename(FILE_TO_SEND) == FILE_TO_SEND
  {
    BasenameSpec(FILE_TO_SEND);
    assert forall i :: 0 <= i < |FILE_TO_SEND| ==> FILE_TO_SEND[i] != '/';
  }

  /** The bytes `create_test_file` leaves on disk. The text is ASCII, so every
      ASCII-compatible encoding, UTF-8 among them, writes its character codes. */
  function TestFileContents(): (r: seq<byte>)
    ensures |r| == |TEST_TEXT|
    ensures forall i :: 0 <= i < |r| ==> r[i] == TEST_TEXT[i] as int
  {
    assert Utf8.Ascii(TEXT_1) && Utf8.Ascii(TEXT_2) && Utf8.Ascii(TEXT_3) && Utf8.Ascii(TEXT_4);
    Utf8.AsciiAppend(TEXT_1, TEXT_2);
    Utf8.AsciiAppend(TEXT_1 + TEXT_2, TEXT_3);
    Utf8.AsciiAppend(TEXT_1 + TEXT_2 + TEXT_3, TEXT_4);
    Utf8.EncodeAscii(TEST_TEXT);
    Utf8.Encode(TEST_TEXT)
  }

  /** The console messages of `send_file`. */
  datatype Outcome = SentSuccessfully | CouldNotConnect | ErrorOccurred

  /** `send_file` for the file at `path` (the script's FILE_TO_SEND): the file's
      base name and size, a connection, then the header, the name and the content
      in 4096-byte reads. A refused connection sends nothing and reports that the
      server is not running; every other failure reports an error. The socket is
      closed on every path. */
  method SendFile(path: string, file: ByteSource, sock: Socket) returns (outcome: Outcome)
    requires file.cursor == 0 && sock.phase == Unconnected
    modifies file`cursor, sock`phase, sock`sent, sock`room
    ensures sock.phase == Closed
    ensures sock.endpoint == Refusing ==> outcome == CouldNotConnect && sock.sent == old(sock.sent)
    ensures sock.endpoint == Unreachable ==> outcome == ErrorOccurred && sock.sent == old(sock.sent)
    ensures var name := Utf8.Encode(Basename(path));
      var header := Protocol.Pack(MAGIC, CMD_UPLOAD, |name|, |file.data|);
      sock.endpoint == Listening ==>
        if header.Err? then outcome == ErrorOccurred && sock.sent == old(sock.sent)
        else
          && (outcome.SentSuccessfully? <==> |header.value| + |name| + |file.data| <= old(sock.room))
          && (!outcome.SentSuccessfully? ==> outcome.ErrorOccurred?)
          && (outcome.SentSuccessfully? ==> sock.sent == old(sock.sent) + [header.value, name] + ChunksOf(file.data, CHUNK_SIZE))
          && IsPrefix(sock.Outbound(), old(sock.Outbound()) + header.value + name + file.data)
  {
    var filename := Basename(path);
    var name := Utf8.Encode(filename);
    var fileSize := |file.data|;
    var err := sock.Connect();
    if err == Some(ConnectionRefused) {
      outcome := CouldNotConnect;
    } else if err.Some? {
      outcome := ErrorOccurred;
    } else {
      outcome := SendConnected(name, fileSize, file, sock);
    }
    sock.Close();
  }

  /** The part of `send_file` after the connection is made. */
  method SendConnected(name: seq<byte>, fileSize: nat, file: ByteSource, sock: Socket) returns (outcome: Outcome)
    requires file.cursor == 0 && fileSize == |file.data| && sock.phase == Open
    modifies file`cursor, sock`sent, sock`room
    ensures sock.phase == Open && !outcome.CouldNotConnect?
    ensures var header := Protocol.Pack(MAGIC, CMD_UPLOAD, |name|, fileSize);
      if header.Err? then outcome == ErrorOccurred && sock.sent == old(sock.sent)
      else
        && (outcome.SentSuccessfully? <==> |header.value| + |name| + |file.data| <= old(sock.room))
        && (outcome.SentSuccessfully? ==> sock.sent == old(sock.sent) + [header.value, name] + ChunksOf(file.data, CHUNK_SIZE))
        && IsPrefix(sock.Outbound(), old(sock.Outbound()) + header.value + name + file.data)
  {
    var header := Protocol.Pack(MAGIC, CMD_UPLOAD, |name|, fileSize);
    if header.Err? {
      return ErrorOccurred;
    }
    var ok := SendUpload(file, sock, header.value, name);
    if ok {
      outcome := SentSuccessfully;
    } else {
      outcome := ErrorOccurred;
    }
  }

  /** The test file's name and size fit the upload header. */
  lemma TestUploadFits()
    ensures Protocol.Pack(MAGIC, CMD_UPLOAD, |Utf8.Encode(FILE_TO_SEND)|, |TestFileContents()|).Ok?
  {
    UploadFits(FILE_TO_SEND, TestFileContents());
  }

  lemma UploadFits(name: string, contents: seq<byte>)
    requires |name| < 0x1000_0000 && |contents| < 0x1000_0000
    ensures Protocol.Pack(MAGIC, CMD_UPLOAD, |Utf8.Encode(name)|, |contents|).Ok?
  {
    Utf8.EncodeLength(name);
  }

  /** The script: create the test file, then send it under its own name. */
  method Run(sock: Socket) returns (contents: seq<byte>, outcome: Outcome)
    requires sock.phase == Unconnected
    modifies sock`phase, sock`sent, sock`room
    ensures contents == TestFileContents()
    ensures sock.phase == Closed
    ensures sock.endpoint == Refusing ==> outcome == CouldNotConnect && sock.sent == old(sock.sent)
    ensures var name := Utf8.Encode(FILE_TO_SEND);
      var header := Protocol.Pack(MAGIC, CMD_UPLOAD, |name|, |contents|);
      && header.Ok?
      && (sock.endpoint == Listening && |header.value| + |name| + |contents| <= old(sock.room) ==>
            outcome == SentSuccessfully
            && sock.sent == old(sock.sent) + [header.value, name] + ChunksOf(contents, CHUNK_SIZE))
  {
    contents := TestFileContents();
    var file := new ByteSource(contents);
    FileToSendIsBasename();
    TestUploadFits();
    outcome := SendFile(FILE_TO_SEND, file, sock);
  }
}
