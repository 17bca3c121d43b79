/** The output buffer's write cursor and the frame around a login answer (src/outbuf.c:47-80, src/protocol_login.c:49-55, 83-105). */
module Framing {
  import opened Options
  import opened Bytes
  import opened Adler
  import opened Xtea

  /** 16384 - 2 * sizeof(void*), with eight-byte pointers. */
  const MAX_OUTBUF_LEN := 16368
  const PAD: byte := 0x33

  // ----- the format -----

  /** The number of padding bytes, (8 - (n & 7)) & 7. */
  function Padding(n: nat): (p: nat)
    ensures p < 8 && (n + p) % 8 == 0
  {
    (8 - n % 8) % 8
  }

  /** Padding makes the least sufficient multiple of eight. */
  lemma PaddingLeast(n: nat, m: nat)
    requires m >= n && m % 8 == 0
    ensures n + Padding(n) <= m
  {
  }

  function Fill(n: nat): (s: seq<byte>)
    ensures |s| == n
  {
    seq(n, _ => PAD)
  }

  /** What gets encrypted: the inner length, the payload and the padding. */
  function Inner(payload: seq<byte>): (s: seq<byte>)
    requires |payload| < U16
    ensures |s| == |payload| + 2 + Padding(|payload| + 2) && |s| % 8 == 0
  {
    Le16(|payload|) + payload + Fill(Padding(|payload| + 2))
  }

  /** The whole message: outer length, checksum, encrypted part. */
  function Frame(k: Key, payload: seq<byte>): (s: seq<byte>)
    requires |payload| + 16 < U16
    ensures |s| == 6 + |payload| + 2 + Padding(|payload| + 2)
  {
    var data := Encoded(k, ROUNDS, Inner(payload));
    Le16(|data| + 4) + Sealed(data)
  }

  function Sealed(data: seq<byte>): (body: seq<byte>)
    ensures |body| == |data| + 4
  {
    Le32(CheckWord(data)) + data
  }

  function CheckWord(data: seq<byte>): word
  {
    ChecksumIsWord(data);
    Checksum(data) as word
  }

  lemma ChecksumIsWord(s: seq<byte>)
    ensures 0 <= Checksum(s) < U32
  {
    ReducedBelow(s);
  }

  lemma {:induction false} ReducedBelow(s: seq<byte>)
    ensures Reduced(s).0 < BASE && Reduced(s).1 < BASE
  {
    if s != [] {
      ReducedBelow(s[..|s| - 1]);
    }
  }

  // ----- reading it back -----

  /** A message split off the front of a stream, as the reader of a connection does: two bytes of length, then the body. */
  function SplitBody(stream: seq<byte>): Option<(seq<byte>, seq<byte>)>
  {
    if |stream| < 2 then None else
      var n := FromLe16(stream[..2]);
      if |stream| < 2 + n then None else Some((stream[2..2 + n], stream[2 + n..]))
  }

  /** The checksum test on a body. */
  predicate Checks(body: seq<byte>)
  {
    |body| >= 5 && FromLe32(body[..4]) as int == Checksum(body[4..])
  }

  /** The payload of a body that passes the test. */
  function Open(k: Key, body: seq<byte>): Option<seq<byte>>
  {
    if !Checks(body) || (|body| - 4) % 8 != 0 then None else
      var inner := Decoded(k, ROUNDS, body[4..]);
      var n := FromLe16(inner[..2]);
      if 2 + n > |inner| then None else Some(inner[2..2 + n])
  }

  lemma InnerBack(payload: seq<byte>)
    requires |payload| < U16
    ensures FromLe16(Inner(payload)[..2]) == |payload| && Inner(payload)[2..2 + |payload|] == payload
  {
    assert Inner(payload)[..2] == Le16(|payload|);
  }

  lemma SealedChecks(data: seq<byte>)
    requires data != []
    ensures Checks(Sealed(data)) && Sealed(data)[4..] == data
  {
    hide Le32, FromLe32, Checksum;
    var body := Sealed(data);
    assert body[..4] == Le32(CheckWord(data)) && body[4..] == data;
  }

  lemma FrameSplits(k: Key, payload: seq<byte>, rest: seq<byte>)
    requires |payload| + 16 < U16
    ensures SplitBody(Frame(k, payload) + rest) == Some((Sealed(Encoded(k, ROUNDS, Inner(payload))), rest))
  {
    hide Encoded, Inner, Sealed, FromLe16, Le16;
    var data := Encoded(k, ROUNDS, Inner(payload));
    var stream := Frame(k, payload) + rest;
    assert stream[..2] == Le16(|data| + 4);
    assert stream[2..2 + |data| + 4] == Sealed(data) && stream[2 + |data| + 4..] == rest;
  }

  /** Whatever follows it in the stream, a frame reads back as exactly the payload it was made of. */
  lemma FrameRoundTrip(k: Key, payload: seq<byte>, rest: seq<byte>)
    requires |payload| + 16 < U16
    ensures SplitBody(Frame(k, payload) + rest).Some?
    ensures SplitBody(Frame(k, payload) + rest).value.1 == rest
    ensures Open(k, SplitBody(Frame(k, payload) + rest).value.0) == Some(payload)
  {
    hide Encoded, Decoded, Inner, Sealed, FromLe16, Checks;
    FrameSplits(k, payload, rest);
    var inner := Inner(payload);
    SealedChecks(Encoded(k, ROUNDS, inner));
    DecodedEncoded(k, ROUNDS, inner);
    InnerBack(payload);
  }

  lemma WordBytes(v: word, s: seq<byte>)
    requires s == Le32(v)
    ensures s[0] as int + 0x100 * s[1] as int + 0x1_0000 * s[2] as int + 0x100_0000 * s[3] as int == v as int
  {
    assert s[..2] == Le16(v as int % U16) && s[2..] == Le16(v as int / U16);
  }

  lemma PairBytes(v: int, s: seq<byte>)
    requires 0 <= v < U16 && |s| >= 2 && s[..2] == Le16(v)
    ensures s[0] as int + 0x100 * s[1] as int == v
  {
    assert s[..2][0] == s[0] && s[..2][1] == s[1];
  }

  lemma InnerLayout(payload: seq<byte>, d: seq<byte>)
    requires |payload| < U16 && d == Inner(payload)
    ensures |payload| + 2 <= |d| < |payload| + 10
    ensures d[0] as int + 0x100 * d[1] as int == |payload| && d[2..2 + |payload|] == payload
    ensures forall i :: 2 + |payload| <= i < |d| ==> d[i] == 0x33
  {
    hide Le16;
    assert d[..2] == Le16(|payload|);
    PairBytes(|payload|, d);
  }

  lemma HeaderLayout(data: seq<byte>, f: seq<byte>)
    requires |data| + 4 < U16 && f == Le16(|data| + 4) + Sealed(data)
    ensures f[6..] == data && f[0] as int + 0x100 * f[1] as int == |data| + 4
    ensures f[2] as int + 0x100 * f[3] as int + 0x1_0000 * f[4] as int + 0x100_0000 * f[5] as int == Checksum(data)
  {
    hide Le16, Le32, Checksum;
    assert f[..2] == Le16(|data| + 4) && f[2..6] == Le32(CheckWord(data));
    PairBytes(|data| + 4, f);
    WordBytes(CheckWord(data), f[2..6]);
  }

  /** A frame byte by byte: its length without itself, the Adler-32 checksum of the encrypted part in closed form, and the
      encrypted part. That part is `d` encrypted: the length of the payload, the payload, and less than eight bytes 0x33
      up to a whole number of blocks. */
  lemma FrameLayout(k: Key, payload: seq<byte>, f: seq<byte>) returns (d: seq<byte>)
    requires |payload| + 16 < U16 && f == Frame(k, payload)
    ensures |payload| + 2 <= |d| < |payload| + 10 && |d| % 8 == 0 && |f| == 6 + |d|
    ensures f[0] as int + 0x100 * f[1] as int == |f| - 2
    ensures f[2] as int + 0x100 * f[3] as int + 0x1_0000 * f[4] as int + 0x100_0000 * f[5] as int
         == (1 + Total(f[6..])) % 65521 + 0x1_0000 * ((|d| + Weighted(f[6..])) % 65521)
    ensures f[6..] == Encoded(k, 32, d)
    ensures d[0] as int + 0x100 * d[1] as int == |payload| && d[2..2 + |payload|] == payload
    ensures forall i :: 2 + |payload| <= i < |d| ==> d[i] == 0x33
  {
    hide Encoded, Checksum, Inner, Sealed, Le16, Total, Weighted;
    d := Inner(payload);
    InnerLayout(payload, d);
    HeaderLayout(Encoded(k, ROUNDS, d), f);
    ClosedForm(f[6..]);
    ChecksumIsWord(f[6..]);
  }

  // ----- the buffer -----

  class Outbuf {
    const base: array<byte>
    var ptr: nat

    ghost predicate Valid()
      reads this
    {
      base.Length == MAX_OUTBUF_LEN && ptr <= MAX_OUTBUF_LEN
    }

    /** outbuf_data and outbuf_len: what has been written so far. */
    ghost function Contents(): seq<byte>
      requires Valid()
      reads this, base
    {
      base[..ptr]
    }

    constructor ()
      ensures Valid() && fresh(base)
    {
      base := new byte[MAX_OUTBUF_LEN](_ => 0);
      ptr := 0;
    }

    method WriteByte(val: byte)
      requires Valid() && ptr + 1 <= MAX_OUTBUF_LEN
      modifies this`ptr, base
      ensures Valid() && Contents() == old(Contents()) + [val]
    {
      base[ptr] := val;
      ptr := ptr + 1;
    }

    method WriteU16(val: int)
      requires Valid() && ptr + 2 <= MAX_OUTBUF_LEN && 0 <= val < U16
      modifies this`ptr, base
      ensures Valid() && Contents() == old(Contents()) + Le16(val)
    {
      EncodeU16(base, ptr, val);
      ptr := ptr + 2;
    }

    method WriteU32(val: word)
      requires Valid() && ptr + 4 <= MAX_OUTBUF_LEN
      modifies this`ptr, base
      ensures Valid() && Contents() == old(Contents()) + Le32(val)
    {
      EncodeU32(base, ptr, val);
      ptr := ptr + 4;
    }

    /** outbuf_write_lstr: a length, cut to 16 bits, and the bytes. */
    method WriteStr(s: seq<byte>)
      requires Valid() && ptr + |s| + 2 <= MAX_OUTBUF_LEN
      modifies this`ptr, base
      ensures Valid() && Contents() == old(Contents()) + Le16(|s|) + s
    {
      EncodeU16(base, ptr, |s| % U16);
      ghost var before := base[..];
      forall i | 0 <= i < |s| {
        base[ptr + 2 + i] := s[i];
      }
      assert base[..] == Splice(before, ptr + 2, s);
      ptr := ptr + |s| + 2;
    }

    /** outbuf_prepare: room for the header. */
    method Prepare()
      requires Valid()
      modifies this`ptr
      ensures Valid() && ptr == 8
    {
      ptr := 8;
    }

    /** The padding always fits when the payload ends at 16366 or before. */
    method Pad(count: nat)
      requires Valid() && ptr + count <= MAX_OUTBUF_LEN
      modifies this`ptr, base
      ensures Valid() && Contents() == old(Contents()) + Fill(count)
    {
      var padding := count;
      while padding > 0
        invariant 0 <= padding <= count && Valid() && ptr == old(ptr) + count - padding
        invariant Contents() == old(Contents()) + Fill(count - padding)
      {
        padding := padding - 1;
        WriteByte(PAD);
      }
    }

    /** outbuf_wrap: the contents become the frame of what was written after the header. */
    method Wrap(k: Key)
      requires Valid() && 8 <= ptr && ptr + Padding(ptr - 6) <= MAX_OUTBUF_LEN
      modifies this`ptr, base
      ensures Valid() && Contents() == Frame(k, old(Contents())[8..])
    {
      var datalen := ptr - 6;
      ghost var payload := Contents()[8..];
      var padding := Padding(datalen);
      EncodeU16(base, 6, datalen - 2);
      assert Contents()[6..] == Le16(|payload|) + payload;
      datalen := datalen + padding;
      Pad(padding);
      assert Contents()[6..] == Inner(payload);
      assert base[6..6 + datalen] == Inner(payload);
      Seal(k, datalen, Inner(payload));
    }

    /** The second half of outbuf_wrap: encryption and the message header. */
    method Seal(k: Key, datalen: nat, ghost inner: seq<byte>)
      requires Valid() && ptr == 6 + datalen && datalen % 8 == 0 && base[6..6 + datalen] == inner
      modifies base
      ensures Contents() == Le16(datalen + 4) + Sealed(Encoded(k, ROUNDS, inner))
    {
      hide Encoded, Checksum;
      XteaEncode(k, base, 6, datalen);
      ghost var data := Encoded(k, ROUNDS, inner);
      assert base[6..6 + datalen] == data;
      var checksum := Adler32(base, 6, datalen);
      EncodeU16(base, 0, datalen + 4);
      EncodeU32(base, 2, checksum as word);
      assert base[..2] == Le16(datalen + 4);
      assert base[2..6] == Le32(CheckWord(data));
      assert base[6..6 + datalen] == data;
    }
  }

  /** The header and the padding fit exactly up to a payload that ends at 16366. */
  lemma PaddingFits(ptr: nat)
    requires 8 <= ptr <= MAX_OUTBUF_LEN
    ensures ptr + Padding(ptr - 6) <= MAX_OUTBUF_LEN <==> ptr <= 16366
  {
  }

  /** build_disconnect_message: the client reads back the opcode and the text. */
  method BuildDisconnect(buf: Outbuf, k: Key, text: seq<byte>)
    requires buf.Valid() && |text| <= 16355
    modifies buf`ptr, buf.base
    ensures buf.Valid() && buf.Contents() == Frame(k, [0x0A] + Le16(|text|) + text)
  {
    buf.Prepare();
    buf.WriteByte(0x0A);
    buf.WriteStr(text);
    assert buf.Contents()[8..] == [0x0A] + Le16(|text|) + text;
    PaddingFits(buf.ptr);
    buf.Wrap(k);
  }
}
