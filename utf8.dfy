/** UTF-8 encoding of file names, as Python's `str.encode('utf-8')` produces the
    bytes that follow a VaultMesh header. Dafny's `char` is a Unicode scalar value,
    so every string here has an encoding. */
module Utf8 {
  import opened Bytes

  /** Number of bytes UTF-8 uses for one scalar value. */
  function Width(c: char): (w: nat)
    ensures 1 <= w <= 4
  {
    var cp := c as int;
    if cp < 0x80 then 1 else if cp < 0x800 then 2 else if cp < 0x1_0000 then 3 else 4
  }

  /** The UTF-8 bytes of one scalar value: a lead byte carrying the high bits and
      continuation bytes 10xxxxxx carrying six bits each. */
  function EncodeChar(c: char): (r: seq<byte>)
    ensures |r| == Width(c)
    ensures r[0] < 0x80 <==> c as int < 0x80
    ensures c as int < 0x80 ==> r == [c as int]
    ensures c as int >= 0x80 ==> forall i :: 0 <= i < |r| ==> r[i] >= 0x80
  {
    var cp := c as int;
    if cp < 0x80 then [cp]
    else if cp < 0x800 then [0xC0 + cp / 64, 0x80 + cp % 64]
    else if cp < 0x1_0000 then [0xE0 + cp / 4096, 0x80 + (cp / 64) % 64, 0x80 + cp % 64]
    else [0xF0 + cp / 262144, 0x80 + (cp / 4096) % 64, 0x80 + (cp / 64) % 64, 0x80 + cp % 64]
  }

  function Encode(s: string): (r: seq<byte>)
  {
    if s == [] then [] else EncodeChar(s[0]) + Encode(s[1..])
  }

  /** Number of characters of s that are not ASCII. */
  function NonAscii(s: string): nat
  {
    if s == [] then 0 else (if s[0] as int < 0x80 then 0 else 1) + NonAscii(s[1..])
  }

  /** Encoding distributes over concatenation. */
  lemma {:induction false} EncodeAppend(s: string, t: string)
    ensures Encode(s + t) == Encode(s) + Encode(t)
  {
    if s == [] {
      assert s + t == t;
    } else {
      assert (s + t)[0] == s[0] && (s + t)[1..] == s[1..] + t;
      EncodeAppend(s[1..], t);
    }
  }

  /** The byte length is at least the character count, and exceeds it by at least
      one byte per non-ASCII character, so a name with a multi-byte character has a
      name length larger than its character count; no character takes more than
      four bytes. */
  lemma {:induction false} EncodeLength(s: string)
    ensures |s| + NonAscii(s) <= |Encode(s)| <= 4 * |s|
    ensures |Encode(s)| == |s| <==> NonAscii(s) == 0
  {
    if s != [] {
      EncodeLength(s[1..]);
    }
  }

  /** Every character of s is ASCII. */
  predicate Ascii(s: string)
  {
    forall i :: 0 <= i < |s| ==> s[i] as int < 0x80
  }

  /** A concatenation of ASCII strings is ASCII. */
  lemma AsciiAppend(s: string, t: string)
    requires Ascii(s) && Ascii(t)
    ensures Ascii(s + t)
  {
    assert forall i :: |s| <= i < |s + t| ==> (s + t)[i] == t[i - |s|];
  }

  /** An ASCII string encodes to its own character codes, one byte each. */
  lemma {:induction false} EncodeAscii(s: string)
    requires Ascii(s)
    ensures |Encode(s)| == |s|
    ensures forall i :: 0 <= i < |s| ==> Encode(s)[i] == s[i] as int
  {
    if s != [] {
      assert forall i :: 0 <= i < |s[1..]| ==> s[1..][i] == s[i + 1];
      EncodeAscii(s[1..]);
      assert Encode(s) == [s[0] as int] + Encode(s[1..]);
    }
  }

  /** A string has no non-ASCII character exactly when every character is below
      0x80 (with EncodeLength: the byte length then equals the character count). */
  lemma {:induction false} NonAsciiZero(s: string)
    ensures NonAscii(s) == 0 <==> forall i :: 0 <= i < |s| ==> s[i] as int < 0x80
  {
    if s != [] {
      NonAsciiZero(s[1..]);
      assert forall i :: 1 <= i < |s| ==> s[i] == s[1..][i - 1];
    }
  }

  // ---------------------------------------------------------------------------
  // Adjacent pairs, used for the storage node's ".." check
  // ---------------------------------------------------------------------------

  /** Some position of b holds x immediately followed by y. */
  predicate HasPair(b: seq<byte>, x: byte, y: byte)
    decreases |b|
  {
    |b| >= 2 && ((b[0] == x && b[1] == y) || HasPair(b[1..], x, y))
  }

  /** Some position of s holds x immediately followed by y. */
  predicate HasCharPair(s: string, x: char, y: char)
    decreases |s|
  {
    |s| >= 2 && ((s[0] == x && s[1] == y) || HasCharPair(s[1..], x, y))
  }

  /** HasPair is the search for an index i with b[i] == x and b[i + 1] == y. */
  lemma {:induction false} HasPairIndex(b: seq<byte>, x: byte, y: byte)
    ensures HasPair(b, x, y) <==> exists i :: 0 <= i < |b| - 1 && b[i] == x && b[i + 1] == y
    decreases |b|
  {
    if |b| >= 2 {
      HasPairIndex(b[1..], x, y);
      if HasPair(b[1..], x, y) {
        var i :| 0 <= i < |b| - 2 && b[1..][i] == x && b[1..][i + 1] == y;
        assert b[i + 1] == x && b[i + 2] == y;
      }
      if exists i :: 0 <= i < |b| - 1 && b[i] == x && b[i + 1] == y {
        var i :| 0 <= i < |b| - 1 && b[i] == x && b[i + 1] == y;
        if i > 0 {
          assert b[1..][i - 1] == x && b[1..][i] == y;
        }
      }
    }
  }

  lemma {:induction false} HasPairSkipsHighBytes(h: seq<byte>, t: seq<byte>, x: byte, y: byte)
    requires x < 0x80
    requires forall i :: 0 <= i < |h| ==> h[i] >= 0x80
    ensures HasPair(h + t, x, y) <==> HasPair(t, x, y)
    decreases |h|
  {
    if h == [] {
      assert h + t == t;
    } else {
      assert (h + t)[0] == h[0] && (h + t)[1..] == h[1..] + t;
      HasPairSkipsHighBytes(h[1..], t, x, y);
    }
  }

  /** An ASCII pair occurs in the encoded bytes exactly when it occurs in the
      characters: no byte of a multi-byte character is below 0x80. */
  lemma {:induction false} EncodeKeepsAsciiPairs(s: string, x: char, y: char)
    requires x as int < 0x80 && y as int < 0x80
    ensures HasPair(Encode(s), x as int, y as int) <==> HasCharPair(s, x, y)
    decreases |s|
  {
    if s != [] {
      var c, rest := s[0], Encode(s[1..]);
      EncodeKeepsAsciiPairs(s[1..], x, y);
      if c as int < 0x80 {
        assert Encode(s) == [c as int] + rest;
        assert Encode(s)[1..] == rest;
        if |s| >= 2 {
          assert rest == EncodeChar(s[1]) + Encode(s[2..]) by { assert s[1..][1..] == s[2..]; }
          assert rest[0] == y as int <==> s[1] == y;
        } else {
          assert rest == [];
        }
      } else {
        HasPairSkipsHighBytes(EncodeChar(c), rest, x as int, y as int);
      }
    }
  }
}
