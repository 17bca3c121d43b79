/** Bytes and the little-endian codecs of src/buffer_util.h. */
module Bytes {

  newtype byte = x: int | 0 <= x < 256

  const U16 := 0x1_0000
  const U32 := 0x1_0000_0000

  /** A uint32 value. */
  newtype word = x: int | 0 <= x < 0x1_0000_0000

  function Le16(v: int): (s: seq<byte>)
    requires 0 <= v < U16
    ensures |s| == 2 && FromLe16(s) == v
  {
    [(v % 256) as byte, (v / 256) as byte]
  }

  function FromLe16(s: seq<byte>): (v: int)
    requires |s| == 2
    ensures 0 <= v < U16
  {
    s[0] as int + 256 * s[1] as int
  }

  function Le32(v: word): (s: seq<byte>)
    ensures |s| == 4 && FromLe32(s) == v
  {
    Le16(v as int % U16) + Le16(v as int / U16)
  }

  function FromLe32(s: seq<byte>): (v: word)
    requires |s| == 4
  {
    (FromLe16(s[..2]) + U16 * FromLe16(s[2..])) as word
  }

  /** Four bytes determine the word and the other way round. */
  lemma Le32Inverse(s: seq<byte>)
    requires |s| == 4
    ensures Le32(FromLe32(s)) == s
  {
    var lo, hi := FromLe16(s[..2]), FromLe16(s[2..]);
    assert (lo + U16 * hi) % U16 == lo && (lo + U16 * hi) / U16 == hi;
  }

  /** `s` with the bytes at `at` replaced by `t`. */
  function Splice(s: seq<byte>, at: nat, t: seq<byte>): (r: seq<byte>)
    requires at + |t| <= |s|
    ensures |r| == |s| && r[..at] == s[..at] && r[at..at + |t|] == t && r[at + |t|..] == s[at + |t|..]
  {
    s[..at] + t + s[at + |t|..]
  }

  lemma SpliceOnward(s: seq<byte>, at: nat, t: seq<byte>, u: seq<byte>)
    requires at + |t| + |u| <= |s|
    ensures Splice(Splice(s, at, t), at + |t|, u) == Splice(s, at, t + u)
  {
  }

  lemma NothingSpliced(s: seq<byte>, at: nat)
    requires at <= |s|
    ensures Splice(s, at, []) == s
  {
  }

  lemma SpliceBefore(s: seq<byte>, at: nat, t: seq<byte>, i: nat, j: nat)
    requires at + |t| <= i <= j <= |s|
    ensures Splice(s, at, t)[i..j] == s[i..j]
  {
  }

  /** encode_u16_le */
  method EncodeU16(data: array<byte>, at: nat, v: int)
    requires at + 2 <= data.Length && 0 <= v < U16
    modifies data
    ensures data[..] == Splice(old(data[..]), at, Le16(v))
  {
    data[at], data[at + 1] := (v % 256) as byte, (v / 256) as byte;
  }

  /** encode_u32_le */
  method EncodeU32(data: array<byte>, at: nat, v: word)
    requires at + 4 <= data.Length
    modifies data
    ensures data[..] == Splice(old(data[..]), at, Le32(v))
  {
    EncodeU16(data, at, v as int % U16);
    EncodeU16(data, at + 2, v as int / U16);
  }

  /** decode_u16_le */
  method DecodeU16(data: array<byte>, at: nat) returns (v: int)
    requires at + 2 <= data.Length
    ensures v == FromLe16(data[at..at + 2])
  {
    v := data[at] as int + 256 * data[at + 1] as int;
  }

  /** decode_u32_le */
  method DecodeU32(data: array<byte>, at: nat) returns (v: word)
    requires at + 4 <= data.Length
    ensures v == FromLe32(data[at..at + 4])
  {
    var lo := DecodeU16(data, at);
    var hi := DecodeU16(data, at + 2);
    assert data[at..at + 4][..2] == data[at..at + 2] && data[at..at + 4][2..] == data[at + 2..at + 4];
    v := (lo + U16 * hi) as word;
  }
}
