/** The byte sources the Python senders read from (an upload's spooled file, the
    test client's file opened "rb"), and the loop both of them run:
    `while chunk := source.read(4096): sock.sendall(chunk)`. */
module Streams {
  import opened Bytes
  import opened Net

  /** Python's chunk size for reading and sending file content. */
  const CHUNK_SIZE: nat := 4096

  /** A seekable binary file object. */
  class ByteSource {
    const data: seq<byte>
    var cursor: nat

    ghost predicate Valid()
      reads this
    {
      cursor <= |data|
    }

    constructor (data: seq<byte>)
      ensures Valid() && this.data == data && cursor == 0
    {
      this.data := data;
      cursor := 0;
    }

    /** `seek(0, os.SEEK_END)`. */
    method SeekEnd()
      modifies this`cursor
      ensures Valid() && cursor == |data|
    {
      cursor := |data|;
    }

    /** `seek(0)`. */
    method Rewind()
      modifies this`cursor
      ensures Valid() && cursor == 0
    {
      cursor := 0;
    }

    /** `tell()`. */
    method Tell() returns (pos: nat)
      ensures pos == cursor
    {
      pos := cursor;
    }

    /** `read(n)`: the next min(n, remaining) bytes; `b""` at the end. */
    method Read(n: nat) returns (chunk: seq<byte>)
      requires Valid()
      modifies this`cursor
      ensures Valid()
      ensures cursor == old(cursor) + Min(n, |data| - old(cursor))
      ensures chunk == data[old(cursor)..cursor]
    {
      chunk := data[cursor..cursor + Min(n, |data| - cursor)];
      cursor := cursor + |chunk|;
    }
  }

  /** `while chunk := source.read(CHUNK_SIZE): sock.sendall(chunk)` on a source at
      its start: the sends are the source's bytes cut into CHUNK_SIZE reads, in
      order; a failed send (a raised exception) stops the loop after a prefix of
      the bytes went out. */
  method PumpChunks(source: ByteSource, sock: Socket) returns (ok: bool)
    requires source.cursor == 0 && sock.phase == Open
    modifies source`cursor, sock`sent, sock`room
    ensures source.Valid()
    ensures ok <==> |source.data| <= old(sock.room)
    ensures ok ==> sock.sent == old(sock.sent) + ChunksOf(source.data, CHUNK_SIZE)
    ensures ok ==> sock.Outbound() == old(sock.Outbound()) + source.data
    ensures IsPrefix(sock.Outbound(), old(sock.Outbound()) + source.data)
  {
    ghost var base, data := sock.sent, source.data;
    ChunksOfSpec(data, CHUNK_SIZE);
    ghost var pos: nat := 0;
    var chunk := source.Read(CHUNK_SIZE);
    ok := true;
    while chunk != []
      invariant source.Valid() && sock.phase == Open
      invariant pos <= |data| && source.cursor == pos + Min(CHUNK_SIZE, |data| - pos)
      invariant chunk == data[pos..source.cursor]
      invariant sock.room + pos == old(sock.room)
      invariant base + ChunksOf(data, CHUNK_SIZE) == sock.sent + ChunksOf(data[pos..], CHUNK_SIZE)
      invariant Flatten(sock.sent) == Flatten(base) + data[..pos]
      decreases |data| - pos
    {
      ghost var before, roomBefore := sock.sent, sock.room;
      ok := sock.SendAll(chunk);
      if !ok {
        SliceOfSlice(data, pos, pos + |chunk|, roomBefore);
        ChunksBreakOff(data, base, before, pos, roomBefore);
        break;
      }
      ChunksAdvance(data, CHUNK_SIZE, base, before, pos);
      pos := source.cursor;
      chunk := source.Read(CHUNK_SIZE);
    }
    if ok {
      assert data[pos..] == [] && data[..pos] == data;
    }
  }

  /** `sock.sendall(header)` then `sock.sendall(name)`: both in order, or an
      exception after part of them went out. */
  method SendHeaderAndName(sock: Socket, header: seq<byte>, name: seq<byte>) returns (ok: bool)
    requires sock.phase == Open
    modifies sock`sent, sock`room
    ensures ok <==> |header| + |name| <= old(sock.room)
    ensures ok ==> sock.sent == old(sock.sent) + [header, name]
    ensures ok ==> sock.Outbound() == old(sock.Outbound()) + header + name
    ensures sock.room == if ok then old(sock.room) - |header| - |name| else 0
    ensures IsPrefix(sock.Outbound(), old(sock.Outbound()) + header + name)
  {
    ghost var base := sock.sent;
    ok := sock.SendAll(header);
    FlattenSnoc(base, sock.sent[|base|]);
    assert sock.sent == base + [sock.sent[|base|]];
    if !ok {
      PrefixOfAppend(Flatten(base), header, |sock.sent[|base|]|);
      PrefixExtend(sock.Outbound(), Flatten(base) + header, name);
      assert Flatten(base) + header + name == Flatten(base) + (header + name);
      return;
    }
    ghost var mid := sock.sent;
    ok := sock.SendAll(name);
    FlattenSnoc(mid, sock.sent[|mid|]);
    assert sock.sent == mid + [sock.sent[|mid|]];
    PrefixOfAppend(Flatten(mid), name, |sock.sent[|mid|]|);
    if ok {
      assert sock.sent == base + [header, name];
    }
  }

  /** The sends of an upload once connected: the header, the name, then the
      content in CHUNK_SIZE reads; any failed send stops them. */
  method SendUpload(file: ByteSource, sock: Socket, header: seq<byte>, name: seq<byte>) returns (ok: bool)
    requires file.cursor == 0 && sock.phase == Open
    modifies file`cursor, sock`sent, sock`room
    ensures sock.phase == Open
    ensures ok <==> |header| + |name| + |file.data| <= old(sock.room)
    ensures ok ==> sock.sent == old(sock.sent) + [header, name] + ChunksOf(file.data, CHUNK_SIZE)
    ensures ok ==> sock.Outbound() == old(sock.Outbound()) + header + name + file.data
    ensures IsPrefix(sock.Outbound(), old(sock.Outbound()) + header + name + file.data)
  {
    ghost var before := sock.Outbound();
    ok := SendHeaderAndName(sock, header, name);
    if !ok {
      PrefixExtend(sock.Outbound(), before + header + name, file.data);
      return;
    }
    ok := PumpChunks(file, sock);
  }
}
