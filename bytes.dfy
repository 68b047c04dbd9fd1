/** Bytes and fixed-width unsigned integers as they appear on the VaultMesh wire:
    big-endian and little-endian k-byte codecs, byte reversal, and the splitting of
    a byte stream into bounded chunks. */
module Bytes {

  /** One octet, as `uint8_t`, Python `bytes` elements and C `char` buffers hold it. */
  type byte = b: int | 0 <= b < 256

  const TWO_TO_32: nat := 0x1_0000_0000
  const TWO_TO_64: nat := 0x1_0000_0000_0000_0000

  type uint8 = byte
  type uint32 = n: nat | n < TWO_TO_32
  type uint64 = n: nat | n < TWO_TO_64

  /** 256^k: the number of values a k-byte unsigned field can hold. */
  function Pow256(k: nat): (r: nat)
    ensures r >= 1
  {
    if k == 0 then 1 else 256 * Pow256(k - 1)
  }

  /** The 4- and 8-byte fields hold exactly the uint32 and uint64 ranges. */
  lemma Pow256Widths()
    ensures Pow256(4) == TWO_TO_32 && Pow256(8) == TWO_TO_64
  {
    assert Pow256(2) == 0x1_0000;
    assert Pow256(4) == 0x1_0000_0000;
  }

  function Min(a: int, b: int): int { if a < b then a else b }

  // ---------------------------------------------------------------------------
  // Big-endian (network byte order) codec
  // ---------------------------------------------------------------------------

  /** The k low-order bytes of n, most significant first. Bytes above the k-th
      are dropped, as a narrowing store of n would drop them. */
  function EncodeBE(n: nat, k: nat): (r: seq<byte>)
    ensures |r| == k
  {
    if k == 0 then [] else EncodeBE(n / 256, k - 1) + [n % 256]
  }

  /** The unsigned value of s read most significant byte first. */
  function DecodeBE(s: seq<byte>): (r: nat)
    ensures r < Pow256(|s|)
  {
    if s == [] then 0 else DecodeBE(s[..|s| - 1]) * 256 + s[|s| - 1]
  }

  /** Decoding what was encoded gives the value back, for every value that fits. */
  lemma {:induction false} DecodeEncodeBE(n: nat, k: nat)
    requires n < Pow256(k)
    ensures DecodeBE(EncodeBE(n, k)) == n
  {
    if k > 0 {
      var e := EncodeBE(n / 256, k - 1);
      assert n / 256 < Pow256(k - 1) by { DivBound(n, Pow256(k - 1)); }
      DecodeEncodeBE(n / 256, k - 1);
      assert (e + [n % 256])[..|e|] == e;
    }
  }

  /** Encoding what was decoded gives the bytes back: the codec is a bijection
      between k-byte sequences and the values below 256^k. */
  lemma {:induction false} EncodeDecodeBE(s: seq<byte>)
    ensures EncodeBE(DecodeBE(s), |s|) == s
  {
    if s != [] {
      var init := s[..|s| - 1];
      var n := DecodeBE(init) * 256 + s[|s| - 1];
      assert n / 256 == DecodeBE(init) && n % 256 == s[|s| - 1];
      EncodeDecodeBE(init);
      assert s == init + [s[|s| - 1]];
    }
  }

  lemma DivBound(n: nat, p: nat)
    requires n < 256 * p
    ensures n / 256 < p
  {
  }

  // ---------------------------------------------------------------------------
  // Byte order reversal and little-endian host memory
  // ---------------------------------------------------------------------------

  function Reverse(s: seq<byte>): (r: seq<byte>)
    ensures |r| == |s|
  {
    if s == [] then [] else Reverse(s[1..]) + [s[0]]
  }

  /** Position i of the reversal holds the byte at the mirrored position. */
  lemma {:induction false} ReverseAt(s: seq<byte>, i: nat)
    requires i < |s|
    ensures Reverse(s)[i] == s[|s| - 1 - i]
  {
    if i < |s| - 1 {
      ReverseAt(s[1..], i);
    }
  }

  /** Reversing twice restores the original order. */
  lemma ReverseReverse(s: seq<byte>)
    ensures Reverse(Reverse(s)) == s
  {
    var r := Reverse(Reverse(s));
    forall i | 0 <= i < |s|
      ensures r[i] == s[i]
    {
      ReverseAt(Reverse(s), i);
      ReverseAt(s, |s| - 1 - i);
    }
  }

  /** The bytes of a k-byte integer in a host's memory: least significant first
      on a little-endian host, most significant first on a big-endian one. */
  function HostBytes(n: nat, k: nat, littleEndian: bool): (r: seq<byte>)
    ensures |r| == k
  {
    if littleEndian then Reverse(EncodeBE(n, k)) else EncodeBE(n, k)
  }

  /** The integer a host reads from the bytes m copied into its memory. */
  function HostValue(m: seq<byte>, littleEndian: bool): (r: nat)
    ensures r < Pow256(|m|)
  {
    if littleEndian then DecodeBE(Reverse(m)) else DecodeBE(m)
  }

  /** Copying an integer out of memory and back is the identity, on either host. */
  lemma HostValueBytes(n: nat, k: nat, littleEndian: bool)
    requires n < Pow256(k)
    ensures HostValue(HostBytes(n, k, littleEndian), littleEndian) == n
  {
    DecodeEncodeBE(n, k);
    if littleEndian {
      ReverseReverse(EncodeBE(n, k));
    }
  }

  /** Copying bytes into an integer and back out restores the bytes, on either host. */
  lemma HostBytesValue(m: seq<byte>, littleEndian: bool)
    ensures HostBytes(HostValue(m, littleEndian), |m|, littleEndian) == m
  {
    if littleEndian {
      EncodeDecodeBE(Reverse(m));
      ReverseReverse(m);
    } else {
      EncodeDecodeBE(m);
    }
  }

  // ---------------------------------------------------------------------------
  // Streams of chunks
  // ---------------------------------------------------------------------------

  /** The bytes of a sequence of chunks, in order. */
  function Flatten(chunks: seq<seq<byte>>): seq<byte>
  {
    if chunks == [] then [] else chunks[0] + Flatten(chunks[1..])
  }

  lemma {:induction false} FlattenAppend(a: seq<seq<byte>>, b: seq<seq<byte>>)
    ensures Flatten(a + b) == Flatten(a) + Flatten(b)
  {
    if a == [] {
      assert a + b == b;
    } else {
      assert (a + b)[1..] == a[1..] + b;
      FlattenAppend(a[1..], b);
    }
  }

  lemma FlattenCons(c: seq<byte>, a: seq<seq<byte>>)
    ensures Flatten([c] + a) == c + Flatten(a)
  {
    assert ([c] + a)[1..] == a;
  }

  lemma FlattenSnoc(a: seq<seq<byte>>, c: seq<byte>)
    ensures Flatten(a + [c]) == Flatten(a) + c
  {
    FlattenAppend(a, [c]);
    assert Flatten([c]) == c + Flatten([]);
  }

  /** a is an initial part of b. */
  predicate IsPrefix(a: seq<byte>, b: seq<byte>)
  {
    |a| <= |b| && a == b[..|a|]
  }

  lemma PrefixOfAppend(a: seq<byte>, b: seq<byte>, k: nat)
    requires k <= |b|
    ensures IsPrefix(a + b[..k], a + b)
  {
    assert (a + b)[..|a| + k] == a + b[..k];
  }

  /** A prefix of b is a prefix of every extension of b. */
  lemma PrefixExtend(a: seq<byte>, b: seq<byte>, c: seq<byte>)
    requires IsPrefix(a, b)
    ensures IsPrefix(a, b + c)
  {
    assert (b + c)[..|a|] == b[..|a|];
  }

  /** Every chunk is non-empty and at most `size` bytes long. */
  ghost predicate BoundedChunks(chunks: seq<seq<byte>>, size: nat)
  {
    forall i :: 0 <= i < |chunks| ==> 0 < |chunks[i]| <= size
  }

  /** The successive results of `read(size)` on a byte source holding `data` whose
      reads return min(size, remaining) bytes, up to (not including) the empty read
      that ends a `while chunk := read(size)` loop. */
  function ChunksOf(data: seq<byte>, size: nat): (r: seq<seq<byte>>)
    requires size > 0
    decreases |data|
  {
    if data == [] then []
    else if |data| <= size then [data]
    else [data[..size]] + ChunksOf(data[size..], size)
  }

  /** The chunks are bounded, concatenate to the whole data in order, and all but
      the last are full. */
  lemma {:induction false} ChunksOfSpec(data: seq<byte>, size: nat)
    requires size > 0
    ensures Flatten(ChunksOf(data, size)) == data
    ensures BoundedChunks(ChunksOf(data, size), size)
    ensures forall i :: 0 <= i < |ChunksOf(data, size)| - 1 ==> |ChunksOf(data, size)[i]| == size
    decreases |data|
  {
    var c := ChunksOf(data, size);
    if data == [] {
    } else if |data| <= size {
      assert Flatten(c) == data + Flatten([]);
    } else {
      var rest := ChunksOf(data[size..], size);
      ChunksOfSpec(data[size..], size);
      assert c == [data[..size]] + rest;
      assert c[1..] == rest;
      assert data == data[..size] + data[size..];
    }
  }

  /** Taking one more read of a source continues its chunking. */
  lemma ChunksOfStep(data: seq<byte>, size: nat, pos: nat)
    requires size > 0 && pos < |data|
    ensures ChunksOf(data[pos..], size)
         == [data[pos..pos + Min(size, |data| - pos)]] + ChunksOf(data[pos + Min(size, |data| - pos)..], size)
  {
    var rest := data[pos..];
    if |rest| <= size {
      assert rest == data[pos..pos + Min(size, |data| - pos)];
      assert data[pos + Min(size, |data| - pos)..] == [];
    } else {
      assert rest[..size] == data[pos..pos + size];
      assert rest[size..] == data[pos + size..];
    }
  }

  /** Sending the next read of a chunked source: if the sends so far are the
      chunks of data[..pos] on top of `base`, then adding the next chunk keeps it
      so and the bytes on the wire grow by that chunk. */
  lemma ChunksAdvance(data: seq<byte>, size: nat, base: seq<seq<byte>>, sent: seq<seq<byte>>, pos: nat)
    requires size > 0 && pos < |data|
    requires base + ChunksOf(data, size) == sent + ChunksOf(data[pos..], size)
    requires Flatten(sent) == Flatten(base) + data[..pos]
    ensures var next := pos + Min(size, |data| - pos);
      && base + ChunksOf(data, size) == (sent + [data[pos..next]]) + ChunksOf(data[next..], size)
      && Flatten(sent + [data[pos..next]]) == Flatten(base) + data[..next]
  {
    var next := pos + Min(size, |data| - pos);
    var chunk := data[pos..next];
    ChunksOfStep(data, size, pos);
    assert sent + ChunksOf(data[pos..], size) == (sent + [chunk]) + ChunksOf(data[next..], size);
    FlattenExtend(data, base, sent, pos, next - pos);
  }

  /** A send that breaks off after k bytes of the next chunk leaves a prefix of
      the whole data on the wire. */
  lemma ChunksBreakOff(data: seq<byte>, base: seq<seq<byte>>, sent: seq<seq<byte>>, pos: nat, k: nat)
    requires pos + k <= |data|
    requires Flatten(sent) == Flatten(base) + data[..pos]
    ensures IsPrefix(Flatten(sent + [data[pos..pos + k]]), Flatten(base) + data)
  {
    FlattenExtend(data, base, sent, pos, k);
    PrefixOfAppend(Flatten(base), data, pos + k);
  }

  lemma FlattenExtend(data: seq<byte>, base: seq<seq<byte>>, sent: seq<seq<byte>>, pos: nat, k: nat)
    requires pos + k <= |data|
    requires Flatten(sent) == Flatten(base) + data[..pos]
    ensures Flatten(sent + [data[pos..pos + k]]) == Flatten(base) + data[..pos + k]
  {
    var d := data[pos..pos + k];
    FlattenSnoc(sent, d);
    AppendAssoc(Flatten(base), data[..pos], d);
    SliceJoin(data, pos, pos + k);
  }

  lemma SliceOfSlice(data: seq<byte>, i: nat, j: nat, k: nat)
    requires i <= j <= |data| && k <= j - i
    ensures data[i..j][..k] == data[i..i + k]
  {
  }

  lemma AppendAssoc(a: seq<byte>, b: seq<byte>, c: seq<byte>)
    ensures (a + b) + c == a + (b + c)
  {
  }

  lemma SliceJoin(data: seq<byte>, i: nat, j: nat)
    requires i <= j <= |data|
    ensures data[..i] + data[i..j] == data[..j]
  {
  }

  /** Appending the next bytes of a stream to the first k of them. */
  lemma GrowPrefix(input: seq<byte>, k: nat, chunk: seq<byte>)
    requires k + |chunk| <= |input| && chunk == input[k..][..|chunk|]
    ensures input[..k] + chunk == input[..k + |chunk|]
    ensures input[k..][|chunk|..] == input[k + |chunk|..]
  {
  }

  /** Reading the next c bytes of a stream into a buffer that holds its first t. */
  lemma FillPrefix(buf: seq<byte>, input: seq<byte>, t: nat, c: nat)
    requires t + c <= |buf| && t + c <= |input|
    requires buf[..t] == input[..t] && buf[t..t + c] == input[t..][..c]
    ensures buf[..t + c] == input[..t + c] && input[t..][c..] == input[t + c..]
  {
    assert buf[..t + c] == buf[..t] + buf[t..t + c];
    assert input[..t + c] == input[..t] + input[t..][..c];
  }

  /** Receiving the next non-empty chunk of an input of which the first k bytes
      were received as `chunks`. */
  lemma ChunksGrow(input: seq<byte>, chunks: seq<seq<byte>>, k: nat, chunk: seq<byte>, size: nat)
    requires k <= |input| && Flatten(chunks) == input[..k] && BoundedChunks(chunks, size)
    requires 0 < |chunk| <= size && |chunk| <= |input| - k && chunk == input[k..][..|chunk|]
    ensures Flatten(chunks + [chunk]) == input[..k + |chunk|]
    ensures input[k..][|chunk|..] == input[k + |chunk|..]
    ensures BoundedChunks(chunks + [chunk], size)
  {
    FlattenSnoc(chunks, chunk);
    GrowPrefix(input, k, chunk);
    BoundedSnoc(chunks, chunk, size);
  }

  lemma BoundedSnoc(chunks: seq<seq<byte>>, chunk: seq<byte>, size: nat)
    requires BoundedChunks(chunks, size) && 0 < |chunk| <= size
    ensures BoundedChunks(chunks + [chunk], size)
  {
    assert forall i :: 0 <= i < |chunks| ==> (chunks + [chunk])[i] == chunks[i];
  }
}
