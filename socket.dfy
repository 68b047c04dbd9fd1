/** A TCP stream socket as both sides of the VaultMesh link use it. The peer's
    behaviour is part of the socket's state and acts as the oracle that fixes
    what each call returns:
    - `endpoint`: what a connect attempt finds;
    - `incoming`: the bytes the peer sends, split into the segments in which they
      arrive (a receive returns at most the rest of the current segment);
    - `resetAtEnd`: whether the peer resets the connection after its last byte
      instead of closing it cleanly;
    - `room`: how many more bytes the peer accepts before a send fails. */
module Net {
  import opened Wrappers
  import opened Bytes

  /** What a connect attempt finds at the configured address. */
  datatype Endpoint = Listening | Refusing | Unreachable

  /** Python's `ConnectionRefusedError`, and every other `OSError` of `connect`. */
  datatype ConnectError = ConnectionRefused | ConnectFailed

  datatype Phase = Unconnected | Open | Closed

  /** Every segment carries at least one byte. */
  ghost predicate Segmented(segs: seq<seq<byte>>)
  {
    forall i :: 0 <= i < |segs| ==> |segs[i]| > 0
  }

  /** The bytes one receive of at most n bytes returns. */
  function Arrived(segs: seq<seq<byte>>, n: nat): seq<byte>
  {
    if segs == [] || n == 0 then [] else segs[0][..Min(n, |segs[0]|)]
  }

  /** The segments still pending after that receive. */
  function Pending(segs: seq<seq<byte>>, n: nat): seq<seq<byte>>
  {
    if segs == [] || n == 0 then segs
    else if n >= |segs[0]| then segs[1..]
    else [segs[0][n..]] + segs[1..]
  }

  /** A receive returns the next bytes of the stream in order, never more than it
      asked for, and at least one byte whenever it asked for some and the peer has
      bytes left; the stream continues with what it did not return. */
  lemma ArrivedSpec(segs: seq<seq<byte>>, n: nat)
    requires Segmented(segs)
    ensures Arrived(segs, n) + Flatten(Pending(segs, n)) == Flatten(segs)
    ensures |Arrived(segs, n)| <= n
    ensures n > 0 && segs != [] ==> |Arrived(segs, n)| > 0
    ensures Segmented(Pending(segs, n))
  {
    ArrivedThenPending(segs, n);
    if segs != [] && 0 < n < |segs[0]| {
      PendingSegmented(segs, n);
    }
  }

  /** The bytes returned followed by those still pending are the whole stream. */
  lemma ArrivedThenPending(segs: seq<seq<byte>>, n: nat)
    ensures Arrived(segs, n) + Flatten(Pending(segs, n)) == Flatten(segs)
  {
    if segs != [] && n > 0 {
      var s := segs[0];
      if n < |s| {
        calc {
          Arrived(segs, n) + Flatten(Pending(segs, n));
          s[..n] + Flatten([s[n..]] + segs[1..]);
          { FlattenCons(s[n..], segs[1..]); }
          s[..n] + (s[n..] + Flatten(segs[1..]));
          { assert s[..n] + s[n..] == s; }
          s + Flatten(segs[1..]);
        }
      } else {
        assert Arrived(segs, n) == s;
      }
    }
  }

  /** A receive that splits the current segment leaves non-empty segments. */
  lemma PendingSegmented(segs: seq<seq<byte>>, n: nat)
    requires Segmented(segs) && segs != [] && 0 < n < |segs[0]|
    ensures Segmented(Pending(segs, n))
  {
    var p := Pending(segs, n);
    assert forall i :: 1 <= i < |p| ==> p[i] == segs[i];
  }

  /** The same, in terms of the stream: a receive returns a prefix of the pending
      bytes and leaves the rest pending. */
  lemma ArrivedPrefix(segs: seq<seq<byte>>, n: nat)
    requires Segmented(segs)
    ensures var a := Arrived(segs, n);
      && a == Flatten(segs)[..|a|] && Flatten(Pending(segs, n)) == Flatten(segs)[|a|..]
      && |a| <= n && (n > 0 && Flatten(segs) != [] ==> |a| > 0)
  {
    ArrivedSpec(segs, n);
  }

  /** The copy `read` makes from the kernel's buffer into the caller's. */
  method CopyInto(buf: array<byte>, offset: nat, chunk: seq<byte>)
    requires offset + |chunk| <= buf.Length
    modifies buf
    ensures buf[offset..offset + |chunk|] == chunk
    ensures buf[..offset] == old(buf[..offset])
    ensures forall i :: offset + |chunk| <= i < buf.Length ==> buf[i] == old(buf[i])
  {
    forall i | offset <= i < offset + |chunk| {
      buf[i] := chunk[i - offset];
    }
    assert buf[offset..offset + |chunk|] == chunk;
  }

  class Socket {
    const endpoint: Endpoint
    const resetAtEnd: bool
    var phase: Phase
    var incoming: seq<seq<byte>>
    var room: nat
    /** What each send put on the wire, in order. */
    var sent: seq<seq<byte>>

    ghost predicate Valid()
      reads this
    {
      Segmented(incoming)
    }

    /** The bytes still to arrive from the peer. */
    ghost function Inbound(): seq<byte>
      reads this
    {
      Flatten(incoming)
    }

    /** Everything this side has put on the wire. */
    ghost function Outbound(): seq<byte>
      reads this
    {
      Flatten(sent)
    }

    /** A fresh client socket, before `connect`. */
    constructor Client(endpoint: Endpoint, reply: seq<seq<byte>>, resetAtEnd: bool, room: nat)
      requires Segmented(reply)
      ensures Valid() && phase == Unconnected && sent == []
      ensures this.endpoint == endpoint && incoming == reply
      ensures this.resetAtEnd == resetAtEnd && this.room == room
    {
      this.endpoint := endpoint;
      this.resetAtEnd := resetAtEnd;
      this.room := room;
      phase := Unconnected;
      incoming := reply;
      sent := [];
    }

    /** A socket returned by `accept` on the storage node. */
    constructor Accepted(request: seq<seq<byte>>, resetAtEnd: bool, room: nat)
      requires Segmented(request)
      ensures Valid() && phase == Open && sent == [] && endpoint == Listening
      ensures incoming == request && this.resetAtEnd == resetAtEnd && this.room == room
    {
      endpoint := Listening;
      this.resetAtEnd := resetAtEnd;
      this.room := room;
      phase := Open;
      incoming := request;
      sent := [];
    }

    /** `sock.connect(addr)`. */
    method Connect() returns (err: Option<ConnectError>)
      requires phase == Unconnected
      modifies this`phase
      ensures err == match endpoint
        case Listening => None
        case Refusing => Some(ConnectionRefused)
        case Unreachable => Some(ConnectFailed)
      ensures phase == if err.None? then Open else Unconnected
    {
      match endpoint
      case Listening =>
        phase := Open;
        err := None;
      case Refusing =>
        err := Some(ConnectionRefused);
      case Unreachable =>
        err := Some(ConnectFailed);
    }

    /** Python's `sock.sendall(data)`: all of data, or an exception once the peer
        stops accepting, after the part it still took. */
    method SendAll(data: seq<byte>) returns (ok: bool)
      requires phase == Open
      modifies this`room, this`sent
      ensures ok <==> |data| <= old(room)
      ensures sent == old(sent) + [if ok then data else data[..old(room)]]
      ensures room == if ok then old(room) - |data| else 0
    {
      ok := |data| <= room;
      if ok {
        sent := sent + [data];
        room := room - |data|;
      } else {
        sent := sent + [data[..room]];
        room := 0;
      }
    }

    /** C's `write(fd, data, len)`: the byte count, or -1 once the peer stops
        accepting. */
    method Write(data: seq<byte>) returns (count: int)
      requires phase == Open
      modifies this`room, this`sent
      ensures count == if |data| <= old(room) then |data| else -1
      ensures sent == old(sent) + [if count >= 0 then data else data[..old(room)]]
      ensures room == if count >= 0 then old(room) - |data| else 0
    {
      var ok := SendAll(data);
      count := if ok then |data| else -1;
    }

    /** Python's `sock.recv(n)`: the next bytes of the current segment, at most n;
        `b""` at a clean end; a raised `ConnectionResetError` (`failed`) at a reset. */
    method Recv(n: nat) returns (chunk: seq<byte>, failed: bool)
      requires Valid() && phase == Open
      modifies this`incoming
      ensures Valid()
      ensures chunk == Arrived(old(incoming), n)
      ensures failed <==> n > 0 && old(Inbound()) == [] && resetAtEnd
      ensures |chunk| <= n && |chunk| <= |old(Inbound())| && chunk == old(Inbound())[..|chunk|] && Inbound() == old(Inbound())[|chunk|..]
      ensures chunk == [] && n > 0 <==> n > 0 && old(Inbound()) == []
    {
      ArrivedPrefix(incoming, n);
      chunk := Arrived(incoming, n);
      failed := n > 0 && incoming == [] && resetAtEnd;
      incoming := Pending(incoming, n);
    }

    /** C's `read(fd, buf + offset, n)`: copies the bytes a receive returns into
        `buf` at `offset` and returns their count; 0 at a clean end, -1 at a reset.
        The caller must own n bytes of buffer from offset on. */
    method Read(buf: array<byte>, offset: nat, n: nat) returns (count: int)
      requires Valid() && phase == Open
      requires offset + n <= buf.Length
      modifies this`incoming, buf
      ensures Valid()
      ensures count <= n && count <= |old(Inbound())|
      ensures count <= 0 <==> n == 0 || old(Inbound()) == []
      ensures count < 0 <==> n > 0 && old(Inbound()) == [] && resetAtEnd
      ensures count <= 0 ==> Inbound() == old(Inbound())
      ensures count > 0 ==> buf[offset..offset + count] == old(Inbound())[..count] && Inbound() == old(Inbound())[count..]
      ensures buf[..offset] == old(buf[..offset])
    {
      var chunk, failed := Recv(n);
      CopyInto(buf, offset, chunk);
      count := if failed then -1 else |chunk|;
    }

    /** Closing at the end of every session (`close(fd)`, or leaving a `with` block). */
    method Close()
      modifies this`phase
      ensures phase == Closed
    {
      phase := Closed;
    }
  }
}
