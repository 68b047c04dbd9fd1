/** The VaultMesh frame header shared by the storage node (C++) and the control
    panel (Python): its constants, its field layout, and Python's `'>BBIQ'`
    struct packing of it. */
module Protocol {
  import opened Wrappers
  import opened Bytes

  /** Field widths in bytes, in wire order. */
  const MAGIC_WIDTH: nat := 1
  const COMMAND_WIDTH: nat := 1
  const NAME_LEN_WIDTH: nat := 4
  const FILE_SIZE_WIDTH: nat := 8

  /** Fixed header size; every exchange begins with exactly this many bytes. */
  const HEADER_SIZE: nat := 14

  /** ASCII 'V', identifying the protocol. */
  const PROTOCOL_MAGIC: byte := 0x56

  /** The commands a header can carry. */
  datatype CommandType = UPLOAD | DOWNLOAD

  /** The opcode byte of a command. */
  function CommandByte(c: CommandType): (b: byte)
    ensures b == 0x01 <==> c == UPLOAD
    ensures b == 0x02 <==> c == DOWNLOAD
  {
    match c
    case UPLOAD => 0x01
    case DOWNLOAD => 0x02
  }

  /** The command an opcode byte names, if any. */
  function CommandOf(b: byte): (r: Option<CommandType>)
    ensures r.Some? <==> b == 0x01 || b == 0x02
    ensures r.Some? ==> CommandByte(r.value) == b
  {
    if b == CommandByte(UPLOAD) then Some(UPLOAD)
    else if b == CommandByte(DOWNLOAD) then Some(DOWNLOAD)
    else None
  }

  /** The two commands have distinct opcodes, and each opcode names its command back. */
  lemma CommandsDistinct(c: CommandType, d: CommandType)
    ensures CommandByte(c) == CommandByte(d) <==> c == d
    ensures CommandOf(CommandByte(c)) == Some(c)
  {
  }

  /** The header record: each field has the range of its C++ type. */
  datatype FileHeader = FileHeader(magic: uint8, command: uint8, filenameLen: uint32, fileSize: uint64)

  /** The wire image of a header: magic, command, then the name length and the
      file size in network byte order, serialised field by field without padding. */
  function Serialize(h: FileHeader): (r: seq<byte>)
    ensures |r| == HEADER_SIZE == MAGIC_WIDTH + COMMAND_WIDTH + NAME_LEN_WIDTH + FILE_SIZE_WIDTH
    ensures r[0] == h.magic && r[1] == h.command
    ensures DecodeBE(r[2..6]) == h.filenameLen
    ensures DecodeBE(r[6..14]) == h.fileSize
  {
    Pow256Widths();
    var r := [h.magic, h.command] + EncodeBE(h.filenameLen, NAME_LEN_WIDTH) + EncodeBE(h.fileSize, FILE_SIZE_WIDTH);
    assert r[2..6] == EncodeBE(h.filenameLen, 4);
    assert r[6..14] == EncodeBE(h.fileSize, 8);
    DecodeEncodeBE(h.filenameLen, 4);
    DecodeEncodeBE(h.fileSize, 8);
    r
  }

  /** Reading the fields back from their wire offsets: each field is the value
      whose big-endian bytes are the bytes at its offset. */
  function Deserialize(s: seq<byte>): (h: FileHeader)
    requires |s| == HEADER_SIZE
    ensures h.magic == s[0] && h.command == s[1]
    ensures EncodeBE(h.filenameLen, NAME_LEN_WIDTH) == s[2..6]
    ensures EncodeBE(h.fileSize, FILE_SIZE_WIDTH) == s[6..14]
  {
    Pow256Widths();
    EncodeDecodeBE(s[2..6]);
    EncodeDecodeBE(s[6..14]);
    FileHeader(s[0], s[1], DecodeBE(s[2..6]), DecodeBE(s[6..14]))
  }

  /** Every header survives the wire. */
  lemma DeserializeSerialize(h: FileHeader)
    ensures Deserialize(Serialize(h)) == h
  {
  }

  /** Every 14-byte string is the image of exactly one header. */
  lemma SerializeDeserialize(s: seq<byte>)
    requires |s| == HEADER_SIZE
    ensures Serialize(Deserialize(s)) == s
  {
    var h := Deserialize(s);
    EncodeDecodeBE(s[2..6]);
    EncodeDecodeBE(s[6..14]);
    assert s == [s[0], s[1]] + s[2..6] + s[6..14];
  }

  // ---------------------------------------------------------------------------
  // Python's struct.pack('>BBIQ', ...) and struct.unpack('>BBIQ', ...)
  // ---------------------------------------------------------------------------

  /** `struct.error`: an argument out of range for its format code, or a buffer
      whose length is not the format's size. */
  datatype StructError = ArgumentOutOfRange | WrongBufferSize

  /** `struct.pack('>BBIQ', magic, command, nameLen, size)`: fails unless each value
      fits its format code (B: 1 byte, I: 4 bytes, Q: 8 bytes). */
  function Pack(magic: int, command: int, nameLen: int, size: int): (r: Result<seq<byte>, StructError>)
    ensures r.Ok? <==> 0 <= magic < 256 && 0 <= command < 256 && 0 <= nameLen < TWO_TO_32 && 0 <= size < TWO_TO_64
    ensures r.Ok? ==> |r.value| == HEADER_SIZE && Deserialize(r.value) == FileHeader(magic, command, nameLen, size)
    ensures r.Err? ==> r.error == ArgumentOutOfRange
  {
    if 0 <= magic < 256 && 0 <= command < 256 && 0 <= nameLen < TWO_TO_32 && 0 <= size < TWO_TO_64 then
      Ok(Serialize(FileHeader(magic, command, nameLen, size)))
    else
      Err(ArgumentOutOfRange)
  }

  /** `struct.unpack('>BBIQ', buf)`: the four fields, or an error unless the buffer
      is exactly 14 bytes long. */
  function Unpack(buf: seq<byte>): (r: Result<FileHeader, StructError>)
    ensures r.Ok? <==> |buf| == HEADER_SIZE
    ensures r.Ok? ==> Serialize(r.value) == buf
    ensures r.Err? ==> r.error == WrongBufferSize
  {
    if |buf| == HEADER_SIZE then
      SerializeDeserialize(buf);
      Ok(Deserialize(buf))
    else
      Err(WrongBufferSize)
  }

  /** Unpacking a packed header returns the four values that were packed. */
  lemma UnpackPack(magic: int, command: int, nameLen: int, size: int)
    requires Pack(magic, command, nameLen, size).Ok?
    ensures Unpack(Pack(magic, command, nameLen, size).value) == Ok(FileHeader(magic, command, nameLen, size))
  {
  }

  /** Packing the fields unpacked from a 14-byte buffer rebuilds the buffer. */
  lemma PackUnpack(buf: seq<byte>)
    requires |buf| == HEADER_SIZE
    ensures var h := Unpack(buf).value; Pack(h.magic, h.command, h.filenameLen, h.fileSize) == Ok(buf)
  {
  }

  /** The upload header for "report.txt" (10 bytes) carrying a 3-byte body. */
  lemma ReportUploadHeader()
    ensures Pack(PROTOCOL_MAGIC, CommandByte(UPLOAD), 10, 3)
         == Ok([0x56, 0x01, 0x00, 0x00, 0x00, 0x0A, 0x00, 0x00, 0x00, 0x00, 0x00, 0x00, 0x00, 0x03])
  {
    assert EncodeBE(10, 4) == [0x00, 0x00, 0x00, 0x0A];
    assert EncodeBE(3, 8) == [0x00, 0x00, 0x00, 0x00, 0x00, 0x00, 0x00, 0x03];
    assert Serialize(FileHeader(0x56, 0x01, 10, 3)) == [0x56, 0x01] + EncodeBE(10, 4) + EncodeBE(3, 8);
    assert Pack(PROTOCOL_MAGIC, CommandByte(UPLOAD), 10, 3) == Ok(Serialize(FileHeader(0x56, 0x01, 10, 3)));
    var wire: seq<byte> := [0x56, 0x01, 0x00, 0x00, 0x00, 0x0A, 0x00, 0x00, 0x00, 0x00, 0x00, 0x00, 0x00, 0x03];
    assert Serialize(FileHeader(0x56, 0x01, 10, 3)) == wire;
  }
}
